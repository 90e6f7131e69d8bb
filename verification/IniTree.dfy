/**
 * The sections of an ini file as a list in preorder, what parsing makes of the lines, what dump prints, and
 * exactly when one undoes the other.
 */
module IniTree {
  import opened IniText

  datatype Entry = Entry(key: string, value: string)

  // One Level: where it hangs, its name, its depth, and its values in file order. Record 0 is the top level.
  datatype Record = Record(parent: int, name: string, depth: nat, entries: seq<Entry>)

  datatype Error = WrongDepth | DuplicateSection | NoEquals | DuplicateKey

  datatype Step = Next(recs: seq<Record>) | Stop(error: Error)

  datatype Outcome = Parsed(recs: seq<Record>) | Failed(error: Error, line: nat)

  const TOP := Record(-1, "", 0, [])

  // ---------- trees in preorder ----------

  ghost predicate Placed(recs: seq<Record>, i: nat)
    requires i < |recs|
  {
    var r := recs[i];
    0 <= r.parent < i && r.depth == recs[r.parent].depth + 1 &&
    forall j :: r.parent < j < i ==> recs[j].depth >= r.depth
  }

  // A tree listed in preorder: every section stands below the record that contains it, one level deeper.
  ghost predicate Preorder(recs: seq<Record>) {
    |recs| > 0 && recs[0].parent == -1 && recs[0].name == "" && recs[0].depth == 0 &&
    forall i :: 0 < i < |recs| ==> Placed(recs, i)
  }

  ghost predicate HasKey(entries: seq<Entry>, key: string) {
    exists k :: 0 <= k < |entries| && entries[k].key == key
  }

  ghost predicate DistinctKeys(entries: seq<Entry>) {
    forall k, m :: 0 <= k < m < |entries| ==> entries[k].key != entries[m].key
  }

  ghost predicate HasChild(recs: seq<Record>, parent: int, name: string) {
    exists i :: 0 <= i < |recs| && recs[i].parent == parent && recs[i].name == name
  }

  // What std::map guarantees: no two values of a level share a key, no two sections of a level a name.
  ghost predicate Distinct(recs: seq<Record>) {
    && (forall i :: 0 <= i < |recs| ==> DistinctKeys(recs[i].entries))
    && (forall i, j :: 0 <= i < j < |recs| && recs[i].parent == recs[j].parent ==> recs[i].name != recs[j].name)
  }

  ghost predicate Tree(recs: seq<Record>) {
    Preorder(recs) && Distinct(recs)
  }

  // ---------- parsing ----------

  // The last level of the given depth, the one a header one deeper belongs to; -1 when there is none.
  function LastAt(recs: seq<Record>, depth: nat): (i: int)
    ensures -1 <= i < |recs| && (i >= 0 ==> recs[i].depth == depth)
    ensures forall j :: i < j < |recs| ==> recs[j].depth != depth
  {
    if recs == [] then -1
    else if recs[|recs| - 1].depth == depth then |recs| - 1
    else LastAt(recs[..|recs| - 1], depth)
  }

  ghost function Apply(recs: seq<Record>, line: Line): (s: Step)
    requires |recs| > 0
    ensures s.Next? ==> |s.recs| >= |recs|
  {
    var cur := recs[|recs| - 1];
    match line
    case Ignored => Next(recs)
    case Malformed => Stop(NoEquals)
    case Header(name, depth) =>
      if depth == 0 || depth > cur.depth + 1 then Stop(WrongDepth)
      else if HasChild(recs, LastAt(recs, depth - 1), name) then Stop(DuplicateSection)
      else Next(recs + [Record(LastAt(recs, depth - 1), name, depth, [])])
    case Pair(key, value) =>
      if HasKey(cur.entries, key) then Stop(DuplicateKey)
      else Next(recs[..|recs| - 1] + [cur.(entries := cur.entries + [Entry(key, value)])])
  }

  // Reads the lines with n lines read before them.
  ghost function Run(recs: seq<Record>, lines: seq<string>, n: nat): Outcome
    requires |recs| > 0
    decreases |lines|
  {
    if lines == [] then Parsed(recs)
    else
      match Apply(recs, Classify(lines[0]))
      case Next(next) => Run(next, lines[1..], n + 1)
      case Stop(error) => Failed(error, n + 1)
  }

  lemma {:induction false} RunNothing(recs: seq<Record>, n: nat)
    requires |recs| > 0
    ensures Run(recs, Lines(""), n) == Parsed(recs)
  {
  }

  ghost function ParseText(text: string): Outcome {
    Run([TOP], Lines(text), 0)
  }

  // ---------- printing ----------

  function EntryText(e: Entry): string {
    e.key + "=" + e.value + "\n"
  }

  function EntriesText(entries: seq<Entry>): string {
    if entries == [] then "" else EntryText(entries[0]) + EntriesText(entries[1..])
  }

  // An unnamed level prints its brackets, if any, without ending the line.
  function RecordText(r: Record): string {
    if r.name == "" then HeaderText(r.depth, "") + EntriesText(r.entries)
    else "\n" + HeaderText(r.depth, r.name) + "\n" + EntriesText(r.entries)
  }

  function RangeText(recs: seq<Record>, from: nat, to: nat): string
    requires from <= to <= |recs|
    decreases |recs| - from
  {
    if from == to then "" else RecordText(recs[from]) + RangeText(recs, from + 1, to)
  }

  function DumpText(recs: seq<Record>): string {
    RangeText(recs, 0, |recs|)
  }

  // ---------- what every successful parse delivers ----------

  ghost predicate Clean(recs: seq<Record>) {
    forall i :: 0 <= i < |recs| ==>
      CleanName(recs[i].name) &&
      forall k :: 0 <= k < |recs[i].entries| ==> CleanPair(recs[i].entries[k].key, recs[i].entries[k].value)
  }

  lemma {:induction false} LastAtIs(recs: seq<Record>, depth: nat, i: nat)
    requires i < |recs| && recs[i].depth == depth && forall j :: i < j < |recs| ==> recs[j].depth != depth
    ensures LastAt(recs, depth) == i
  {
  }

  // In a tree every depth up to the last record's occurs, so a header that is not too deep has an enclosing level.
  lemma {:induction false} Reaches(recs: seq<Record>, i: nat, depth: nat)
    requires Preorder(recs) && i < |recs| && depth <= recs[i].depth
    requires forall j :: i < j < |recs| ==> recs[j].depth > recs[i].depth
    ensures LastAt(recs, depth) >= 0
    ensures forall j :: LastAt(recs, depth) < j < |recs| ==> recs[j].depth > depth
    decreases i
  {
    if recs[i].depth == depth {
      LastAtIs(recs, depth, i);
    } else {
      assert Placed(recs, i);
      Reaches(recs, recs[i].parent, depth);
    }
  }

  lemma HeaderKeepsTree(recs: seq<Record>, name: string, depth: nat)
    requires Tree(recs) && 0 < depth <= recs[|recs| - 1].depth + 1
    requires !HasChild(recs, LastAt(recs, depth - 1), name)
    ensures Tree(recs + [Record(LastAt(recs, depth - 1), name, depth, [])])
  {
    var p := LastAt(recs, depth - 1);
    Reaches(recs, |recs| - 1, depth - 1);
    var next := recs + [Record(p, name, depth, [])];
    forall i | 0 < i < |next| ensures Placed(next, i) {
      if i < |recs| { assert Placed(recs, i); }
    }
  }

  lemma PairKeepsTree(recs: seq<Record>, e: Entry)
    requires Tree(recs) && !HasKey(recs[|recs| - 1].entries, e.key)
    ensures Tree(recs[..|recs| - 1] + [recs[|recs| - 1].(entries := recs[|recs| - 1].entries + [e])])
  {
    var cur := recs[|recs| - 1];
    var next := recs[..|recs| - 1] + [cur.(entries := cur.entries + [e])];
    forall i | 0 < i < |next| ensures Placed(next, i) {
      assert Placed(recs, i);
    }
  }

  lemma ApplyKeepsTree(recs: seq<Record>, line: Line)
    requires Tree(recs) && Apply(recs, line).Next?
    ensures Tree(Apply(recs, line).recs)
  {
    hide Tree;
    match line {
      case Header(name, depth) => HeaderKeepsTree(recs, name, depth);
      case Pair(key, value) => PairKeepsTree(recs, Entry(key, value));
      case _ =>
    }
  }

  lemma ApplyKeepsClean(recs: seq<Record>, raw: string)
    requires |recs| > 0 && Clean(recs) && '\n' !in raw && Apply(recs, Classify(raw)).Next?
    ensures Clean(Apply(recs, Classify(raw)).recs)
  {
    hide Classify, CleanName, CleanPair;
    ClassifyIsClean(raw);
  }

  ghost predicate OneLiners(lines: seq<string>) {
    forall k :: 0 <= k < |lines| ==> '\n' !in lines[k]
  }

  lemma {:induction false} LinesAreOneLiners(s: string)
    ensures OneLiners(Lines(s))
  {
    if s != "" {
      var n := LineEnd(s);
      if n < |s| { LinesAreOneLiners(s[n + 1..]); }
    }
  }

  lemma {:induction false} RunKeeps(recs: seq<Record>, lines: seq<string>, n: nat)
    requires |recs| > 0 && Tree(recs) && Clean(recs) && OneLiners(lines) && Run(recs, lines, n).Parsed?
    ensures Tree(Run(recs, lines, n).recs) && Clean(Run(recs, lines, n).recs)
    decreases |lines|
  {
    hide Tree, Clean, Apply, Classify;
    if lines != [] {
      ApplyKeepsTree(recs, Classify(lines[0]));
      ApplyKeepsClean(recs, lines[0]);
      RunKeeps(Apply(recs, Classify(lines[0])).recs, lines[1..], n + 1);
    }
  }

  // After any successful parse each section is one deeper than the level that contains it and listed below it,
  // names and keys are unique in their level, and everything stored can be written on one line.
  lemma ParsedIsTree(text: string)
    requires ParseText(text).Parsed?
    ensures Tree(ParseText(text).recs) && Clean(ParseText(text).recs)
  {
    LinesAreOneLiners(text);
    RunKeeps([TOP], Lines(text), 0);
  }
}
