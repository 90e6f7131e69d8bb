/** Reading a dump: it rebuilds the tree exactly when nothing in the tree runs into a neighbouring line. */
module IniRoundTrip {
  import opened IniText
  import opened IniTree

  // An unnamed section must hold no values and must not be followed by another unnamed one, since dump ends
  // neither with a newline; and no key may make its line a comment.
  ghost predicate FaithfulAt(recs: seq<Record>, i: nat)
    requires i < |recs|
  {
    && (i > 0 && recs[i].name == "" ==> recs[i].entries == [] && (i + 1 < |recs| ==> recs[i + 1].name != ""))
    && (forall k :: 0 <= k < |recs[i].entries| ==> !Comment(recs[i].entries[k].key))
  }

  ghost predicate Faithful(recs: seq<Record>) {
    Clean(recs) && forall i :: 0 <= i < |recs| ==> FaithfulAt(recs, i)
  }

  // ---------- a faithful tree is read back ----------

  lemma {:induction false} RunFirst(recs: seq<Record>, line: string, rest: string, n: nat)
    requires |recs| > 0 && '\n' !in line
    ensures Run(recs, Lines(line + "\n" + rest), n) ==
            match Apply(recs, Classify(line))
            case Next(next) => Run(next, Lines(rest), n + 1)
            case Stop(error) => Failed(error, n + 1)
  {
    hide Apply, Classify, Lines;
    FirstLine(line, rest);
    assert ([line] + Lines(rest))[1..] == Lines(rest);
  }

  lemma HeaderIsOneLine(depth: nat, name: string)
    requires CleanName(name)
    ensures '\n' !in HeaderText(depth, name)
  {
  }

  lemma HeaderStep(recs: seq<Record>, i: nat)
    requires Tree(recs) && 0 < i < |recs| && CleanName(recs[i].name)
    ensures Apply(recs[..i], Classify(HeaderText(recs[i].depth, recs[i].name))) ==
            Next(recs[..i] + [recs[i].(entries := [])])
  {
    hide Classify, HeaderText;
    var r := recs[i];
    assert Placed(recs, i);
    HeaderReads(r.depth, r.name);
    LastAtIs(recs[..i], r.depth - 1, r.parent);
  }

  ghost function Partly(recs: seq<Record>, i: nat, k: nat): seq<Record>
    requires i < |recs| && k <= |recs[i].entries|
  {
    recs[..i] + [recs[i].(entries := recs[i].entries[..k])]
  }

  lemma EntryStep(recs: seq<Record>, i: nat, k: nat)
    requires Tree(recs) && i < |recs| && k < |recs[i].entries| && Clean(recs) && FaithfulAt(recs, i)
    ensures var e := recs[i].entries[k];
            '\n' !in e.key + "=" + e.value &&
            Apply(Partly(recs, i, k), Classify(e.key + "=" + e.value)) == Next(Partly(recs, i, k + 1))
  {
    hide Classify, Preorder;
    var es := recs[i].entries;
    PairReads(es[k].key, es[k].value);
    var now := Partly(recs, i, k);
    assert DistinctKeys(es);
    assert now[|now| - 1].entries == es[..k] && now[..|now| - 1] == recs[..i];
    assert es[..k] + [es[k]] == es[..k + 1];
  }

  lemma {:induction false} RereadEntries(recs: seq<Record>, i: nat, k: nat, rest: string, n: nat)
    requires Tree(recs) && i < |recs| && k <= |recs[i].entries| && Clean(recs) && FaithfulAt(recs, i)
    ensures Run(Partly(recs, i, k), Lines(EntriesText(recs[i].entries[k..]) + rest), n) ==
            Run(recs[..i + 1], Lines(rest), n + |recs[i].entries| - k)
    decreases |recs[i].entries| - k
  {
    hide Run, Lines, Classify, Apply, FaithfulAt, Tree, Clean;
    var es := recs[i].entries;
    if k == |es| {
      assert es[..k] == es && es[k..] == [];
      assert Partly(recs, i, k) == recs[..i + 1];
      assert EntriesText(es[k..]) + rest == rest;
    } else {
      EntryStep(recs, i, k);
      var line, more := es[k].key + "=" + es[k].value, EntriesText(es[k + 1..]) + rest;
      assert es[k..][0] == es[k] && es[k..][1..] == es[k + 1..];
      assert EntriesText(es[k..]) + rest == line + "\n" + more;
      RunFirst(Partly(recs, i, k), line, more, n);
      RereadEntries(recs, i, k + 1, rest, n + 1);
    }
  }

  // Reading what dump prints from record i on, with the records before it already read.
  lemma {:induction false} Reread(recs: seq<Record>, i: nat, n: nat)
    requires Tree(recs) && Faithful(recs) && 0 < i <= |recs|
    ensures Run(recs[..i], Lines(RangeText(recs, i, |recs|)), n) == Parsed(recs)
    decreases |recs| - i
  {
    hide Run, Lines, Tree, Clean, FaithfulAt, RangeText;
    if i == |recs| {
      assert recs[..i] == recs;
      NoText(recs);
      RunNothing(recs, n);
    } else if recs[i].name == "" {
      Reread(recs, i + 1, n);
      UnnamedLine(recs, i, n);
    } else {
      Reread(recs, i + 1, n + 2 + |recs[i].entries|);
      NamedLines(recs, i, n);
    }
  }

  lemma {:induction false} NoText(recs: seq<Record>)
    ensures RangeText(recs, |recs|, |recs|) == ""
  {
  }

  lemma NamedText(recs: seq<Record>, i: nat)
    requires i < |recs| && recs[i].name != ""
    ensures RangeText(recs, i, |recs|) ==
            "" + "\n" + (HeaderText(recs[i].depth, recs[i].name) + "\n" +
                         (EntriesText(recs[i].entries) + RangeText(recs, i + 1, |recs|)))
  {
    hide HeaderText, EntriesText, RangeText;
    RangeStep(recs, i);
  }

  // A named section: a blank line, its header, its values, and what follows.
  lemma NamedLines(recs: seq<Record>, i: nat, n: nat)
    requires Tree(recs) && Clean(recs) && 0 < i < |recs| && FaithfulAt(recs, i) && recs[i].name != ""
    ensures Run(recs[..i], Lines(RangeText(recs, i, |recs|)), n) ==
            Run(recs[..i + 1], Lines(RangeText(recs, i + 1, |recs|)), n + 2 + |recs[i].entries|)
  {
    hide Run, Lines, Classify, Apply, Tree, Clean, FaithfulAt, HeaderText, EntriesText, RangeText;
    var r, rest := recs[i], RangeText(recs, i + 1, |recs|);
    var head, body := HeaderText(r.depth, r.name), EntriesText(r.entries) + rest;
    NamedText(recs, i);
    RunFirst(recs[..i], "", head + "\n" + body, n);
    BlankLine(recs[..i]);
    NameAt(recs, i);
    HeaderIsOneLine(r.depth, r.name);
    HeaderStep(recs, i);
    RunFirst(recs[..i], head, body, n + 1);
    assert r.entries[..0] == [] && r.entries[0..] == r.entries;
    RereadEntries(recs, i, 0, rest, n + 2);
  }

  lemma NameAt(recs: seq<Record>, i: nat)
    requires Clean(recs) && i < |recs|
    ensures CleanName(recs[i].name)
  {
  }

  lemma BlankLine(recs: seq<Record>)
    requires |recs| > 0
    ensures Apply(recs, Classify("")) == Next(recs)
  {
    CoreOfTrimmed("");
  }

  lemma RangeStep(recs: seq<Record>, i: nat)
    requires i < |recs|
    ensures RangeText(recs, i, |recs|) == RecordText(recs[i]) + RangeText(recs, i + 1, |recs|)
  {
    hide RecordText;
  }

  lemma NamedStarts(r: Record, rest: string)
    requires r.name != ""
    ensures RecordText(r) + rest != "" && (RecordText(r) + rest)[0] == '\n'
  {
    hide HeaderText, EntriesText;
  }

  lemma UnnamedText(recs: seq<Record>, i: nat)
    requires i < |recs| && recs[i].name == "" && recs[i].entries == []
    ensures RangeText(recs, i, |recs|) == HeaderText(recs[i].depth, "") + RangeText(recs, i + 1, |recs|)
    ensures i + 1 == |recs| ==> RangeText(recs, i + 1, |recs|) == ""
    ensures i + 1 < |recs| && recs[i + 1].name != "" ==>
              RangeText(recs, i + 1, |recs|) != "" && RangeText(recs, i + 1, |recs|)[0] == '\n'
  {
    hide HeaderText, RangeText;
    RangeStep(recs, i);
    assert HeaderText(recs[i].depth, "") + EntriesText([]) == HeaderText(recs[i].depth, "");
    if i + 1 == |recs| {
      NoText(recs);
    } else if recs[i + 1].name != "" {
      RangeStep(recs, i + 1);
      NamedStarts(recs[i + 1], RangeText(recs, i + 2, |recs|));
    }
  }

  lemma {:induction false} RunOne(recs: seq<Record>, line: string, n: nat)
    requires |recs| > 0 && Apply(recs, Classify(line)).Next?
    ensures Run(recs, [line], n) == Parsed(Apply(recs, Classify(line)).recs)
  {
    hide Apply, Classify;
    assert [line][1..] == [];
  }

  // The newline that ends an unnamed header is the one the next, named, section starts with.
  lemma UnnamedLine(recs: seq<Record>, i: nat, n: nat)
    requires Tree(recs) && Clean(recs) && 0 < i < |recs| && FaithfulAt(recs, i) && recs[i].name == ""
    requires Run(recs[..i + 1], Lines(RangeText(recs, i + 1, |recs|)), n) == Parsed(recs)
    ensures Run(recs[..i], Lines(RangeText(recs, i, |recs|)), n) == Parsed(recs)
  {
    hide Run, Lines, Classify, Apply, Tree, Clean, HeaderText, RangeText;
    var head, rest := HeaderText(recs[i].depth, ""), RangeText(recs, i + 1, |recs|);
    NameAt(recs, i);
    HeaderIsOneLine(recs[i].depth, "");
    HeaderStep(recs, i);
    assert recs[..i] + [recs[i].(entries := [])] == recs[..i + 1];
    UnnamedText(recs, i);
    if rest == "" {
      assert head + rest == head;
      HeaderNonEmpty(recs, i);
      LastLine(head);
      RunOne(recs[..i], head, n);
    } else {
      assert rest == "" + "\n" + rest[1..];
      assert head + rest == head + "\n" + rest[1..];
      RunFirst(recs[..i], head, rest[1..], n);
      RunFirst(recs[..i + 1], "", rest[1..], n);
      BlankLine(recs[..i + 1]);
    }
  }

  lemma HeaderNonEmpty(recs: seq<Record>, i: nat)
    requires Tree(recs) && 0 < i < |recs|
    ensures |HeaderText(recs[i].depth, recs[i].name)| > 0 && HeaderText(recs[i].depth, recs[i].name)[0] == '['
  {
    assert Placed(recs, i);
  }

  lemma FaithfulIsReread(recs: seq<Record>)
    requires Tree(recs) && Faithful(recs)
    ensures ParseText(DumpText(recs)) == Parsed(recs)
  {
    hide Run, Lines, Clean, EntriesText;
    var rest := RangeText(recs, 1, |recs|);
    var es := recs[0].entries;
    assert FaithfulAt(recs, 0);
    assert es[0..] == es && es[..0] == [];
    DumpOfTop(recs);
    assert Partly(recs, 0, 0) == [TOP];
    RereadEntries(recs, 0, 0, rest, 0);
    Reread(recs, 1, |es|);
  }

  // ---------- and only a faithful tree ----------

  // Lines that can add a section or a value.
  function Productive(lines: seq<string>): nat {
    if lines == [] then 0
    else (if lines[0] != "" && !Comment(lines[0]) then 1 else 0) + Productive(lines[1..])
  }

  // Sections and values, counting the top level once.
  function Size(recs: seq<Record>): nat {
    if recs == [] then 0 else Size(recs[..|recs| - 1]) + 1 + |recs[|recs| - 1].entries|
  }

  lemma {:induction false} StepAddsOne(recs: seq<Record>, raw: string)
    requires |recs| > 0 && Apply(recs, Classify(raw)).Next?
    ensures Size(Apply(recs, Classify(raw)).recs) <= Size(recs) + Productive([raw])
  {
  }

  lemma {:induction false} SizeAppend(recs: seq<Record>, r: Record)
    ensures Size(recs + [r]) == Size(recs) + 1 + |r.entries|
  {
    assert (recs + [r])[..|recs|] == recs;
  }

  lemma {:induction false} RunAddsProductive(recs: seq<Record>, lines: seq<string>, n: nat)
    requires |recs| > 0 && Run(recs, lines, n).Parsed?
    ensures Size(Run(recs, lines, n).recs) <= Size(recs) + Productive(lines)
    decreases |lines|
  {
    hide Apply, Classify, Size, Comment;
    if lines != [] {
      StepAddsOne(recs, lines[0]);
      assert Productive(lines) == Productive([lines[0]]) + Productive(lines[1..]);
      RunAddsProductive(Apply(recs, Classify(lines[0])).recs, lines[1..], n + 1);
    }
  }

  function Useful(entries: seq<Entry>): (n: nat)
    ensures n <= |entries|
    ensures n == |entries| ==> forall k :: 0 <= k < |entries| ==> !Comment(entries[k].key)
  {
    if entries == [] then 0
    else
      var n := Useful(entries[1..]);
      assert forall k :: 0 < k < |entries| ==> entries[k] == entries[1..][k - 1];
      (if Comment(entries[0].key) then 0 else 1) + n
  }

  lemma {:induction false} ProductiveFirst(line: string, rest: string)
    requires '\n' !in line
    ensures Productive(Lines(line + "\n" + rest)) == Productive([line]) + Productive(Lines(rest))
  {
    hide Lines;
    FirstLine(line, rest);
    assert ([line] + Lines(rest))[1..] == Lines(rest);
  }

  ghost predicate CleanEntries(entries: seq<Entry>) {
    forall k :: 0 <= k < |entries| ==> CleanPair(entries[k].key, entries[k].value)
  }

  lemma {:induction false} EntriesCount(entries: seq<Entry>, rest: string)
    requires CleanEntries(entries)
    ensures Productive(Lines(EntriesText(entries) + rest)) == Useful(entries) + Productive(Lines(rest))
  {
    hide Lines, CleanPair;
    if entries == [] {
      assert EntriesText(entries) + rest == rest;
    } else {
      var line := EntryLine(entries[0]);
      var more := EntriesText(entries[1..]) + rest;
      assert EntriesText(entries) + rest == line + "\n" + more;
      ProductiveFirst(line, more);
      EntriesCount(entries[1..], rest);
    }
  }

  lemma EntryLine(e: Entry) returns (line: string)
    requires CleanPair(e.key, e.value)
    ensures line == e.key + "=" + e.value && '\n' !in line && line != "" && line[0] != '\n'
    ensures EntryText(e) == line + "\n" && Productive([line]) == if Comment(e.key) then 0 else 1
  {
    line := e.key + "=" + e.value;
  }

  // Text put in front of a line without a newline merges with it.
  lemma {:induction false} Merge(head: string, rest: string)
    requires '\n' !in head && head != "" && head[0] == '['
    ensures Productive(Lines(head + rest)) ==
            1 + Productive(Lines(rest)) - (if rest == "" then 0 else Productive([Lines(rest)[0]]))
  {
    hide Lines, Comment;
    if rest == "" {
      assert head + rest == head;
      LastLine(head);
      NoLines();
      OneLine(head);
    } else {
      MergedLines(head, rest);
      var lines, merged := Lines(rest), Lines(head + rest);
      NoComment(merged[0]);
      ProductiveSplit(lines);
      ProductiveSplit(merged);
    }
  }

  lemma {:induction false} ProductiveSplit(lines: seq<string>)
    requires lines != []
    ensures Productive(lines) == Productive([lines[0]]) + Productive(lines[1..])
  {
  }

  lemma {:induction false} MergedLines(head: string, rest: string)
    requires '\n' !in head && head != "" && rest != ""
    ensures Lines(rest) != [] && Lines(head + rest) != []
    ensures Lines(head + rest)[0] == head + Lines(rest)[0] && Lines(head + rest)[1..] == Lines(rest)[1..]
  {
    hide Lines, LineEnd;
    var n, s := LineEnd(rest), head + rest;
    assert (forall k :: 0 <= k < |head| ==> s[k] == head[k]) && (forall k :: |head| <= k < |s| ==> s[k] == rest[k - |head|]);
    LineEndIs(s, |head| + n);
    LinesSplit(s);
    LinesSplit(rest);
    assert s[..|head| + n] == head + rest[..n];
    if n < |rest| {
      assert s[|head| + n + 1..] == rest[n + 1..];
    }
  }

  lemma {:induction false} LinesSplit(s: string)
    requires s != ""
    ensures var n := LineEnd(s); Lines(s) != [] && Lines(s)[0] == s[..n] && Lines(s)[1..] == if n < |s| then Lines(s[n + 1..]) else []
  {
    hide LineEnd;
  }

  lemma NoComment(s: string)
    requires s != "" && s[0] == '['
    ensures !Comment(s)
  {
  }

  // A line holding a value starts what follows an unnamed header.
  lemma {:induction false} StartsWithEntry(entries: seq<Entry>, rest: string)
    requires CleanEntries(entries) && entries != []
    ensures EntriesText(entries) + rest != ""
    ensures Productive([Lines(EntriesText(entries) + rest)[0]]) == if Comment(entries[0].key) then 0 else 1
  {
  }

  lemma {:induction false} StartsWithHeader(recs: seq<Record>, i: nat)
    requires Tree(recs) && 0 < i < |recs| && recs[i].name == ""
    ensures RangeText(recs, i, |recs|) != "" && Productive([Lines(RangeText(recs, i, |recs|))[0]]) == 1
  {
    hide Tree, HeaderText, EntriesText, RangeText, LineEnd;
    HeaderNonEmpty(recs, i);
    UnnamedParts(recs, i);
    var text := RangeText(recs, i, |recs|);
    assert text[0] == '[';
    assert Lines(text)[0][0] == '[' by { assert LineEnd(text) > 0; }
  }

  // A dump has no more productive lines than the tree has sections and values, and as many only when no line is
  // lost to a comment or to a merge.
  lemma {:induction false} RangeCount(recs: seq<Record>, i: nat)
    requires Tree(recs) && Clean(recs) && 0 < i <= |recs|
    ensures Productive(Lines(RangeText(recs, i, |recs|))) <= Size(recs) - Size(recs[..i])
    ensures Productive(Lines(RangeText(recs, i, |recs|))) == Size(recs) - Size(recs[..i]) ==>
            forall j :: i <= j < |recs| ==> FaithfulAt(recs, j)
    decreases |recs| - i
  {
    hide Lines, Tree, Clean, Size, HeaderText, EntriesText, Useful, FaithfulAt;
    if i == |recs| {
      assert recs[..i] == recs;
      assert Productive(Lines("")) == 0 by { NoLines(); }
    } else {
      RangeCount(recs, i + 1);
      SizeUpTo(recs, i);
      RecordCount(recs, i);
    }
  }

  lemma NoLines()
    ensures Lines("") == []
  {
  }

  lemma SizeUpTo(recs: seq<Record>, i: nat)
    requires i < |recs|
    ensures Size(recs[..i + 1]) == Size(recs[..i]) + 1 + |recs[i].entries|
  {
    SizeAppend(recs[..i], recs[i]);
    assert recs[..i + 1] == recs[..i] + [recs[i]];
  }

  lemma RecordCount(recs: seq<Record>, i: nat)
    requires Tree(recs) && Clean(recs) && 0 < i < |recs|
    ensures var gain := Productive(Lines(RangeText(recs, i, |recs|))) - Productive(Lines(RangeText(recs, i + 1, |recs|)));
            gain <= 1 + |recs[i].entries| && (gain == 1 + |recs[i].entries| ==> FaithfulAt(recs, i))
  {
    hide Lines, Tree, Clean, Useful, Productive, HeaderText, EntriesText;
    if recs[i].name == "" {
      UnnamedCount(recs, i);
    } else {
      NamedCount(recs, i);
    }
  }

  lemma NamedCount(recs: seq<Record>, i: nat)
    requires Tree(recs) && Clean(recs) && 0 < i < |recs| && recs[i].name != ""
    ensures Productive(Lines(RangeText(recs, i, |recs|))) ==
            Productive(Lines(RangeText(recs, i + 1, |recs|))) + 1 + Useful(recs[i].entries)
  {
    hide Lines, Tree, Clean, HeaderText, Useful, Productive, EntriesText, RangeText;
    var r, rest := recs[i], RangeText(recs, i + 1, |recs|);
    var head, body := HeaderText(r.depth, r.name), EntriesText(r.entries) + rest;
    NameAt(recs, i);
    EntriesAt(recs, i);
    HeaderIsOneLine(r.depth, r.name);
    HeaderNonEmpty(recs, i);
    EntriesCount(r.entries, rest);
    NamedText(recs, i);
    ProductiveFirst("", head + "\n" + body);
    ProductiveFirst(head, body);
    OneLine(head);
  }

  lemma UnnamedCount(recs: seq<Record>, i: nat)
    requires Tree(recs) && Clean(recs) && 0 < i < |recs| && recs[i].name == ""
    ensures var gain := Productive(Lines(RangeText(recs, i, |recs|))) - Productive(Lines(RangeText(recs, i + 1, |recs|)));
            gain <= 1 + Useful(recs[i].entries) && (gain == 1 + |recs[i].entries| ==> FaithfulAt(recs, i))
  {
    hide Lines, Tree, Clean, HeaderText, Productive, EntriesText, RangeText, Comment;
    var r, rest := recs[i], RangeText(recs, i + 1, |recs|);
    var head, body := HeaderText(r.depth, r.name), EntriesText(r.entries) + rest;
    NameAt(recs, i);
    EntriesAt(recs, i);
    HeaderIsOneLine(r.depth, r.name);
    HeaderNonEmpty(recs, i);
    EntriesCount(r.entries, rest);
    UnnamedParts(recs, i);
    Merge(head, body);
    if r.entries != [] {
      StartsWithEntry(r.entries, rest);
    } else {
      assert EntriesText(r.entries) + rest == rest by { NoEntries(rest); }
      if i + 1 < |recs| && recs[i + 1].name == "" {
        StartsWithHeader(recs, i + 1);
      }
    }
  }

  lemma UnnamedParts(recs: seq<Record>, i: nat)
    requires i < |recs| && recs[i].name == ""
    ensures RangeText(recs, i, |recs|) ==
            HeaderText(recs[i].depth, "") + (EntriesText(recs[i].entries) + RangeText(recs, i + 1, |recs|))
  {
    hide HeaderText, EntriesText, RangeText;
    RangeStep(recs, i);
  }

  lemma NoEntries(rest: string)
    ensures EntriesText([]) + rest == rest
  {
  }

  lemma OneLine(head: string)
    requires head != "" && head[0] == '['
    ensures Productive([""]) == 0 && Productive([head]) == 1
  {
  }

  lemma EntriesAt(recs: seq<Record>, i: nat)
    requires Clean(recs) && i < |recs|
    ensures CleanEntries(recs[i].entries)
  {
  }

  lemma RereadIsFaithful(recs: seq<Record>)
    requires Tree(recs) && ParseText(DumpText(recs)) == Parsed(recs)
    ensures Faithful(recs)
  {
    hide Run, Lines, Clean, Useful, Productive, FaithfulAt, EntriesText, Size, Distinct, DumpText, RangeText;
    var rest, es := RangeText(recs, 1, |recs|), recs[0].entries;
    ParsedIsTree(DumpText(recs));
    EntriesAt(recs, 0);
    DumpOfTop(recs);
    EntriesCount(es, rest);
    RunAddsProductive([TOP], Lines(DumpText(recs)), 0);
    TopSize();
    RangeCount(recs, 1);
    SizeUpTo(recs, 0);
    assert recs[..0] == [];
    TopIsFaithful(recs);
  }

  lemma {:induction false} DumpOfTop(recs: seq<Record>)
    requires |recs| > 0 && recs[0].name == "" && recs[0].depth == 0
    ensures DumpText(recs) == EntriesText(recs[0].entries) + RangeText(recs, 1, |recs|)
  {
    hide EntriesText, HeaderText;
    NoHeader();
    assert RecordText(recs[0]) == EntriesText(recs[0].entries);
  }

  lemma NoHeader()
    ensures HeaderText(0, "") == ""
  {
  }

  lemma TopSize()
    ensures Size([]) == 0 && Size([TOP]) == 1
  {
    assert [TOP][..0] == [];
  }

  lemma TopIsFaithful(recs: seq<Record>)
    requires |recs| > 0 && Useful(recs[0].entries) == |recs[0].entries|
    ensures FaithfulAt(recs, 0)
  {
  }

  // Reading a dump gives back the tree, with both orders, every parent and every depth, exactly when the tree is
  // faithful.
  lemma RoundTrip(recs: seq<Record>)
    requires Tree(recs)
    ensures ParseText(DumpText(recs)) == Parsed(recs) <==> Faithful(recs)
  {
    if Faithful(recs) {
      FaithfulIsReread(recs);
    } else if ParseText(DumpText(recs)) == Parsed(recs) {
      RereadIsFaithful(recs);
    }
  }

  // For a tree that was itself read from a file nothing else can go wrong.
  lemma ReparseExactly(text: string)
    requires ParseText(text).Parsed?
    ensures var recs := ParseText(text).recs;
            ParseText(DumpText(recs)) == Parsed(recs) <==> forall i :: 0 <= i < |recs| ==> FaithfulAt(recs, i)
  {
    hide FaithfulAt, Clean, Run, Lines, DumpText;
    ParsedIsTree(text);
    RoundTrip(ParseText(text).recs);
  }

  // A file that parses but whose dump reads differently: the unnamed section swallows its own value.
  lemma UnnamedSectionIsLost()
    ensures var tree := [TOP, Record(0, "", 1, [Entry("a", "1")])];
            ParseText("[]" + "\n" + ("a=1" + "\n" + "")) == Parsed(tree) && ParseText(DumpText(tree)) != Parsed(tree)
  {
    hide Lines, Classify, Run, Clean, DumpText, Core;
    var text, empty := "[]" + "\n" + ("a=1" + "\n" + ""), [TOP, Record(0, "", 1, [])];
    var tree := [TOP, Record(0, "", 1, [Entry("a", "1")])];
    OddLines();
    RunFirst([TOP], "[]", "a=1" + "\n" + "", 0);
    RunFirst(empty, "a=1", "", 1);
    RunNothing(tree, 2);
    ParsedIsTree(text);
    RoundTrip(tree);
    assert !FaithfulAt(tree, 1);
  }

  lemma OddLines()
    ensures Apply([TOP], Classify("[]")) == Next([TOP, Record(0, "", 1, [])])
    ensures Apply([TOP, Record(0, "", 1, [])], Classify("a=1")) == Next([TOP, Record(0, "", 1, [Entry("a", "1")])])
  {
    hide Classify;
    assert HeaderText(1, "") == "[]" && "a=1" == "a" + "=" + "1";
    HeaderReads(1, "");
    LastAtIs([TOP], 0, 0);
    PairReads("a", "1");
    var empty := [TOP, Record(0, "", 1, [])];
    var none: seq<Entry> := [];
    assert empty[..1] == [TOP] && none + [Entry("a", "1")] == [Entry("a", "1")];
  }
}
