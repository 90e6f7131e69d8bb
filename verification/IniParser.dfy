/** The linked levels of bridgeserver/ini.hpp, their parser and their printer, held against the tree in preorder. */
module IniParser {
  import opened Wrappers
  import opened IniText
  import opened IniTree
  import opened IniOrder

  class Level {
    var values: map<string, string>
    var sections: map<string, Level>
    var orderedValues: seq<string>
    var orderedSections: seq<string>
    var parent: Level?
    var depth: nat

    constructor ()
      ensures values == map[] && sections == map[] && orderedValues == [] && orderedSections == []
      ensures parent == null && depth == 0
    {
      values, sections, orderedValues, orderedSections, parent, depth := map[], map[], [], [], null, 0;
    }

    // A std::map lookup inserts what it does not find.
    method Value(name: string) returns (value: string)
      modifies this`values
      ensures values == if name in old(values) then old(values) else old(values)[name := ""]
      ensures value == values[name]
    {
      if name !in values { values := values[name := ""]; }
      value := values[name];
    }

    method Section(name: string) returns (l: Level)
      modifies this`sections
      ensures name in sections && l == sections[name]
      ensures name in old(sections) ==> sections == old(sections)
      ensures name !in old(sections) ==> fresh(l) && sections == old(sections)[name := l]
      ensures name !in old(sections) ==>
                l.values == map[] && l.sections == map[] && l.orderedValues == [] && l.orderedSections == []
      ensures name !in old(sections) ==> l.parent == null && l.depth == 0
    {
      if name !in sections {
        l := new Level();
        sections := sections[name := l];
      }
      l := sections[name];
    }
  }

  // The fields of a level at one moment.
  datatype Cell = Cell(values: map<string, string>, sections: map<string, Level>, orderedValues: seq<string>,
                       orderedSections: seq<string>, parent: Level?, depth: nat)

  function Now(l: Level): Cell
    reads l
  {
    Cell(l.values, l.sections, l.orderedValues, l.orderedSections, l.parent, l.depth)
  }

  ghost predicate Lists(c: Cell, entries: seq<Entry>) {
    |c.orderedValues| == |entries| &&
    forall k :: 0 <= k < |entries| ==>
      c.orderedValues[k] == entries[k].key && entries[k].key in c.values && c.values[entries[k].key] == entries[k].value
  }

  ghost predicate Holds(c: Cell, nodes: seq<Level>, recs: seq<Record>, kids: seq<nat>)
    requires |nodes| == |recs| && forall k :: 0 <= k < |kids| ==> kids[k] < |recs|
  {
    |c.orderedSections| == |kids| &&
    forall k :: 0 <= k < |kids| ==>
      c.orderedSections[k] == recs[kids[k]].name && recs[kids[k]].name in c.sections &&
      c.sections[recs[kids[k]].name] == nodes[kids[k]]
  }

  // The level carries record i: its place, both its orders, and the maps behind them.
  ghost predicate Carries(c: Cell, nodes: seq<Level>, recs: seq<Record>, i: nat)
    requires i < |recs| == |nodes|
  {
    && c.depth == recs[i].depth
    && c.parent == (if 0 <= recs[i].parent < |nodes| then nodes[recs[i].parent] else null)
    && Lists(c, recs[i].entries)
    && Holds(c, nodes, recs, Children(recs, i))
  }

  // The level holds nothing that is not in its two order lists.
  ghost predicate Bare(c: Cell, recs: seq<Record>, i: nat)
    requires i < |recs|
  {
    && (forall name :: name in c.values ==> HasKey(recs[i].entries, name))
    && (forall name :: name in c.sections ==> HasChild(recs, i, name))
  }

  ghost predicate Shape(nodes: seq<Level>, recs: seq<Record>)
    reads nodes
  {
    && |nodes| == |recs| > 0
    && Tree(recs)
    && (forall i, j :: 0 <= i < j < |nodes| ==> nodes[i] != nodes[j])
    && (forall i :: 0 <= i < |recs| ==> Carries(Now(nodes[i]), nodes, recs, i))
  }

  ghost predicate Exact(nodes: seq<Level>, recs: seq<Record>)
    reads nodes
  {
    |nodes| == |recs| &&
    forall i :: 0 <= i < |recs| ==> Bare(Now(nodes[i]), recs, i)
  }

  // Besides what the file said, the level holds empty values and added levels.
  ghost predicate OnlyAdds(c: Cell, recs: seq<Record>, i: nat, added: set<Level>)
    requires i < |recs|
  {
    && (forall name :: name in c.values && !HasKey(recs[i].entries, name) ==> c.values[name] == "")
    && (forall name :: name in c.sections && !HasChild(recs, i, name) ==> c.sections[name] in added)
  }

  ghost predicate AddsOnly(c: Cell, added: set<Level>) {
    && (forall name :: name in c.values ==> c.values[name] == "")
    && (forall name :: name in c.sections ==> c.sections[name] in added)
  }

  lemma AtNode(nodes: seq<Level>, recs: seq<Record>, i: nat)
    requires Shape(nodes, recs) && i < |recs|
    ensures nodes[i].depth == recs[i].depth && recs[i].parent < i && (i > 0 ==> Placed(recs, i))
    ensures i > 0 ==> nodes[i].parent == nodes[recs[i].parent]
    ensures i == 0 ==> nodes[i].depth == 0
  {
    hide Lists, Holds, Tree;
    assert Carries(Now(nodes[i]), nodes, recs, i);
    ParentBelow(recs, i);
    if i > 0 { assert Placed(recs, i); }
  }

  // The file gives this value to this key of this section of the top level.
  ghost predicate Says(recs: seq<Record>, section: string, key: string, value: string) {
    exists i :: 0 <= i < |recs| && recs[i].parent == 0 && recs[i].name == section && Entry(key, value) in recs[i].entries
  }

  class Parser {
    var top: Level
    const text: string
    var pos: nat
    var line: string
    var ln: nat
    var failure: Option<Error>
    ghost var nodes: seq<Level>
    ghost var recs: seq<Record>

    // Levels that lookups have created; the file said nothing of them.
    ghost var added: set<Level>

    // After a successful parse, and after any lookups: the tree stands, and whatever else is there is empty.
    ghost predicate Valid()
      reads this, nodes, added
    {
      && Shape(nodes, recs)
      && top == nodes[0]
      && (forall i :: 0 <= i < |recs| ==> OnlyAdds(Now(nodes[i]), recs, i, added))
      && (forall l :: l in added ==> l !in nodes && AddsOnly(Now(l), added))
    }

    // A failed parse throws; the exception is left in failure, its line in ln.
    constructor (input: string)
      ensures text == input
      ensures match ParseText(input)
              case Parsed(result) => failure == None && recs == result && Valid() && added == {}
              case Failed(e, n) => failure == Some(e) && ln == n
    {
      hide Shape, Exact, Run, Lines, OnlyAdds, AddsOnly;
      var t := new Level();
      top, text, pos, line, ln, failure := t, input, 0, "", 0, None;
      nodes, recs, added := [t], [TOP], {};
      new;
      TopAlone(nodes);
      assert text[pos..] == text;
      failure := ParseLevel(top);
      if failure == None { NothingAdded(nodes, recs); }
    }

    // std::getline
    method GetLine() returns (ok: bool)
      requires pos <= |text|
      modifies this`pos, this`line
      ensures pos <= |text| && ok == (old(pos) < |text|)
      ensures ok ==> old(pos) < pos && Lines(text[old(pos)..]) == [line] + Lines(text[pos..])
      ensures !ok ==> pos == old(pos)
    {
      hide Lines;
      if pos == |text| { return false; }
      var start := pos;
      while pos < |text| && text[pos] != '\n'
        invariant start <= pos <= |text| && forall k :: start <= k < pos ==> text[k] != '\n'
      {
        pos := pos + 1;
      }
      line := text[start..pos];
      LinesFrom(text, start, pos);
      if pos < |text| { pos := pos + 1; }
      ok := true;
    }

    // From the innermost open level, up the parent pointers to the one a header of this depth belongs to.
    method Climb(l: Level, depth: nat) returns (parent: Level)
      requires Shape(nodes, recs) && l == nodes[|nodes| - 1] && 0 < depth <= l.depth + 1
      ensures LastAt(recs, depth - 1) >= 0 && parent == nodes[LastAt(recs, depth - 1)]
    {
      hide LastAt, Tree, Preorder, Carries;
      ParentBelow(recs, 0);
      ghost var c: nat := |recs| - 1;
      AtNode(nodes, recs, c);
      if l.depth == depth - 1 {
        parent := l;
      } else {
        parent := l.parent;
        c := recs[c].parent;
        var n := l.depth - depth;
        for i := 0 to n
          invariant c < |recs| && parent == nodes[c] && recs[c].depth == l.depth - 1 - i
          invariant forall j :: c < j < |recs| ==> recs[j].depth > recs[c].depth
        {
          AtNode(nodes, recs, c);
          parent := parent.parent;
          c := recs[c].parent;
        }
      }
      LastAtIs(recs, depth - 1, c);
    }

    // Opens section sname in the level parent, which is the one its header belongs to.
    method AddSection(parent: Level, sname: string, depth: nat) returns (error: Option<Error>, lp: Level)
      requires Shape(nodes, recs) && Exact(nodes, recs) && 0 < depth <= recs[|recs| - 1].depth + 1
      requires LastAt(recs, depth - 1) >= 0 && parent == nodes[LastAt(recs, depth - 1)]
      modifies this`nodes, this`recs, parent
      ensures match Apply(old(recs), Header(sname, depth))
              case Stop(e) => error == Some(e) && nodes == old(nodes)
              case Next(next) =>
                error == None && recs == next && nodes == old(nodes) + [lp] && fresh(lp) &&
                Shape(nodes, recs) && Exact(nodes, recs)
    {
      hide LastAt, HasChild, Tree, Children, Lists, Holds, Bare, Carries, Placed;
      ghost var p: nat, n := LastAt(recs, depth - 1), |recs|;
      KnownSection(nodes, recs, p, sname);
      lp := parent.Section(sname);
      if lp.depth != 0 {
        return Some(DuplicateSection), lp;
      }
      if lp.parent == null {
        lp.depth := depth;
        lp.parent := parent;
      }
      parent.orderedSections := parent.orderedSections + [sname];
      HeaderKeepsTree(recs, sname, depth);
      ghost var r := Record(p, sname, depth, []);
      forall i | 0 <= i <= n
        ensures Carries(Now((nodes + [lp])[i]), nodes + [lp], recs + [r], i) && Bare(Now((nodes + [lp])[i]), recs + [r], i)
      {
        ParentBelow(recs, i);
        if i == n {
          NewLevel(Now(lp), nodes + [lp], recs, r);
        } else if i == p {
          WithChild(old(Now(nodes[i])), Now(nodes[i]), nodes, recs, lp, r, i);
        } else {
          WithSibling(Now(nodes[i]), nodes, recs, lp, r, i);
        }
      }
      nodes, recs := nodes + [lp], recs + [r];
      error := None;
    }

    // Stores a value in the innermost level.
    method AddPair(l: Level, key: string, value: string) returns (error: Option<Error>)
      requires Shape(nodes, recs) && Exact(nodes, recs) && l == nodes[|nodes| - 1]
      modifies this`recs, l
      ensures match Apply(old(recs), Pair(key, value))
              case Stop(e) => error == Some(e)
              case Next(next) => error == None && recs == next && Shape(nodes, recs) && Exact(nodes, recs)
    {
      hide HasKey, Tree, Children, Lists, Holds, Bare, Carries, Placed;
      ghost var n := |recs| - 1;
      ParentBelow(recs, n);
      ghost var cur, e := recs[n], Entry(key, value);
      KnownKey(Now(l), nodes, recs, n, key);
      if key in l.values {
        return Some(DuplicateKey);
      }
      l.values := l.values[key := value];
      l.orderedValues := l.orderedValues + [key];
      PairKeepsTree(recs, e);
      ghost var next := recs[..n] + [cur.(entries := cur.entries + [e])];
      forall i | 0 <= i <= n ensures Carries(Now(nodes[i]), nodes, next, i) && Bare(Now(nodes[i]), next, i) {
        ParentBelow(recs, i);
        if i == n {
          WithPair(old(Now(l)), Now(l), nodes, recs, next, e);
        } else {
          BesidePair(Now(nodes[i]), nodes, recs, next, i);
        }
      }
      recs := next;
      error := None;
    }

    // A section header: it may stand at most one level below l, and belongs to an enclosing level otherwise.
    method OpenSection(l: Level) returns (error: Option<Error>, lp: Level)
      requires Shape(nodes, recs) && Exact(nodes, recs) && l == nodes[|nodes| - 1] && line != "" && line[0] == '['
      modifies this`nodes, this`recs, nodes
      ensures match Apply(old(recs), Content(line))
              case Stop(e) => error == Some(e) && nodes == old(nodes)
              case Next(next) =>
                error == None && recs == next && nodes == old(nodes) + [lp] && fresh(lp) &&
                Shape(nodes, recs) && Exact(nodes, recs)
    {
      hide Shape, Exact, Brackets, Substr, HasChild, HasKey, LastAt, Find;
      Sizes(nodes, recs);
      AtNode(nodes, recs, |recs| - 1);
      var sname, depth := ParseSLine(line);
      if depth > l.depth + 1 { return Some(WrongDepth), l; }
      var parent := Climb(l, depth);
      error, lp := AddSection(parent, sname, depth);
    }

    method StorePair(l: Level) returns (error: Option<Error>)
      requires Shape(nodes, recs) && Exact(nodes, recs) && l == nodes[|nodes| - 1] && line != "" && line[0] != '['
      modifies this`recs, l
      ensures match Apply(old(recs), Content(line))
              case Stop(e) => error == Some(e)
              case Next(next) => error == None && recs == next && Shape(nodes, recs) && Exact(nodes, recs)
    {
      hide Shape, Exact, Brackets, Substr, HasChild, HasKey, LastAt, Find, Core;
      var n := FindFirst(line, '=');
      if n == |line| { return Some(NoEquals); }
      var key := Trim(line[..n]);
      var value := Trim(line[n + 1..]);
      error := AddPair(l, key, value);
    }

    // The recursive parse of the source: it returns only at the end of the input, however shallow later sections are.
    method ParseLevel(l: Level) returns (error: Option<Error>)
      requires Shape(nodes, recs) && Exact(nodes, recs) && l == nodes[|nodes| - 1] && pos <= |text|
      modifies this`pos, this`line, this`ln, this`nodes, this`recs, nodes
      ensures match Run(old(recs), Lines(text[old(pos)..]), old(ln))
              case Parsed(result) =>
                error == None && recs == result && pos == |text| && Shape(nodes, recs) && Exact(nodes, recs)
              case Failed(e, n) => error == Some(e) && ln == n
      ensures old(pos) <= pos <= |text|
      ensures old(nodes) <= nodes && forall i :: old(|nodes|) <= i < |nodes| ==> fresh(nodes[i])
      decreases |text| - pos, 1
    {
      hide Shape, Exact, Lines, Run;
      Sizes(nodes, recs);
      ghost var goal := Run(recs, Lines(text[pos..]), ln);
      while true
        invariant old(pos) <= pos <= |text| && |nodes| == |recs| > 0 && (pos < |text| ==> l == nodes[|nodes| - 1])
        invariant Shape(nodes, recs) && Exact(nodes, recs)
        invariant Run(recs, Lines(text[pos..]), ln) == goal
        invariant old(nodes) <= nodes && forall i :: old(|nodes|) <= i < |nodes| ==> fresh(nodes[i])
        decreases |text| - pos
      {
        var more := GetLine();
        if !more { break; }
        RunLine(recs, line, Lines(text[pos..]), ln);
        ln := ln + 1;
        error := ParseLine(l, goal);
        if error.Some? { return; }
        Sizes(nodes, recs);
      }
      assert text[pos..] == "";
      RunNothing(recs, ln);
      return None;
    }

    // The body of its loop, for the line just read; goal is what the whole input comes to.
    method ParseLine(l: Level, ghost goal: Outcome) returns (error: Option<Error>)
      requires Shape(nodes, recs) && Exact(nodes, recs) && l == nodes[|nodes| - 1] && pos <= |text|
      requires goal == match Apply(recs, Classify(line))
                       case Next(next) => Run(next, Lines(text[pos..]), ln)
                       case Stop(e) => Failed(e, ln)
      modifies this`pos, this`line, this`ln, this`nodes, this`recs, nodes
      ensures old(pos) <= pos <= |text|
      ensures error == None ==> Shape(nodes, recs) && Exact(nodes, recs) && (pos < |text| ==> l == nodes[|nodes| - 1])
      ensures goal == if error == None then Run(recs, Lines(text[pos..]), ln) else Failed(error.value, ln)
      ensures old(nodes) <= nodes && forall i :: old(|nodes|) <= i < |nodes| ==> fresh(nodes[i])
      decreases |text| - pos, 2
    {
      hide Shape, Exact, Lines, Run, Core, Content, Apply;
      Sizes(nodes, recs);
      if Comment(line) {
        NothingToDo(recs);
        return None;
      }
      line := Trim(line);
      if line == "" {
        NothingToDo(recs);
        return None;
      }
      if line[0] == '[' {
        var lp;
        error, lp := OpenSection(l);
        if error.Some? { return; }
        error := ParseLevel(lp);
        if error.Some? { return; }
        assert text[pos..] == "";
        Sizes(nodes, recs);
        RunNothing(recs, ln);
      } else {
        error := StorePair(l);
        if error.Some? { return; }
      }
    }

    lemma SectionsKnown(l: Level, name: string)
      requires Valid() && (l in nodes || l in added) && name in l.sections
      ensures l.sections[name] in nodes || l.sections[name] in added
    {
      hide Tree, HasKey, Children, Lists;
      if l in nodes {
        var i :| 0 <= i < |nodes| && nodes[i] == l;
        if HasChild(recs, i, name) { ChildHeld(nodes, recs, i, name); }
      }
    }

    // Level::operator[] on any level one can get at. It inserts what it does not find, and that changes nothing.
    method LookupValue(l: Level, name: string) returns (value: string)
      requires Valid() && (l in nodes || l in added)
      modifies l`values
      ensures Valid() && value == if name in old(l.values) then old(l.values)[name] else ""
      ensures l.values == if name in old(l.values) then old(l.values) else old(l.values)[name := ""]
    {
      hide Tree, HasKey, HasChild, Carries;
      value := l.Value(name);
      forall i | 0 <= i < |recs| ensures Carries(Now(nodes[i]), nodes, recs, i) {
        ParentBelow(recs, i);
        CarriesMore(old(Now(nodes[i])), Now(nodes[i]), nodes, recs, i);
      }
    }

    // Level::operator().
    method LookupSection(l: Level, name: string) returns (r: Level)
      requires Valid() && (l in nodes || l in added)
      modifies l`sections, this`added
      ensures Valid() && (r in nodes || r in added)
      ensures name in l.sections && r == l.sections[name]
      ensures name in old(l.sections) ==> l.sections == old(l.sections) && added == old(added)
      ensures name !in old(l.sections) ==> fresh(r) && added == old(added) + {r} && r.values == map[]
    {
      hide Tree, Carries, OnlyAdds, AddsOnly;
      if name in l.sections { SectionsKnown(l, name); }
      r := l.Section(name);
      if fresh(r) { added := added + {r}; }
      forall i | 0 <= i < |recs|
        ensures Carries(Now(nodes[i]), nodes, recs, i) && OnlyAdds(Now(nodes[i]), recs, i, added)
      {
        ParentBelow(recs, i);
        CarriesMore(old(Now(nodes[i])), Now(nodes[i]), nodes, recs, i);
        StillOnlyAdds(old(Now(nodes[i])), Now(nodes[i]), recs, i, old(added), added);
      }
      forall x | x in added ensures AddsOnly(Now(x), added) {
        if x in old(added) { StillAddsOnly(old(Now(x)), Now(x), old(added), added); } else { ShownEmpty(Now(x), added); }
      }
    }

    // The recursive dump: record i and everything inside it, appended to the stream. The source's assertion on the
    // depth of each section is proved on the way.
    method DumpLevel(s: string, l: Level, sname: string, ghost i: nat) returns (r: string)
      requires Valid() && i < |recs| && l == nodes[i] && sname == recs[i].name
      ensures r == s + RangeText(recs, i, EndOf(recs, i))
      decreases |recs| - i
    {
      hide Shape, Children, EndOf, KidAt, RangeText, HeaderText, EntriesText, Lists, OnlyAdds, AddsOnly;
      OwnLists(nodes, recs, i);
      r := DumpHeader(s, l.depth, sname);
      r := DumpValues(r, l, recs[i].entries);
      OwnText(s, recs, i);
      for k := 0 to |l.orderedSections|
        invariant i < KidAt(recs, i, k) && r == s + RangeText(recs, i, KidAt(recs, i, k))
      {
        var name := l.orderedSections[k];
        ghost var c := Kid(nodes, recs, i, k);
        var child := l.sections[name];
        assert child.depth == l.depth + 1;
        r := DumpLevel(r, child, name, c);
        Appended(s, recs, i, c, KidAt(recs, i, k + 1));
      }
    }

    method Dump() returns (r: string)
      requires Valid()
      ensures r == DumpText(recs)
    {
      hide EndOf, RangeText;
      ParentBelow(recs, 0);
      AllInsideTop(recs);
      r := DumpLevel("", top, "", 0);
    }

    lemma ReadAt(section: string, key: string)
      requires Valid() && section in top.sections
      ensures var l := top.sections[section];
              && (forall value :: Says(recs, section, key, value) ==> key in l.values && l.values[key] == value)
              && (key in l.values && l.values[key] != "" ==> Says(recs, section, key, l.values[key]))
    {
      hide Tree, Holds, Children;
      ParentBelow(recs, 0);
      var l := top.sections[section];
      if HasChild(recs, 0, section) {
        ChildHeld(nodes, recs, 0, section);
        forall j: nat | j < |recs| && recs[j].parent == 0 && recs[j].name == section
          ensures l == nodes[j] && Lists(Now(l), recs[j].entries) && OnlyAdds(Now(l), recs, j, added)
        {
          ParentBelow(recs, j);
          assert Carries(Now(nodes[j]), nodes, recs, j);
        }
      }
    }

    // It answers from the file alone, whatever was looked up before; an empty value counts as none.
    method ReadString(section: string, key: string, defaultValue: string) returns (r: string)
      requires Valid()
      modifies this`added, nodes, added
      ensures Valid()
      ensures forall value :: Says(recs, section, key, value) ==> r == if value == "" then defaultValue else value
      ensures (forall value :: !Says(recs, section, key, value)) ==> r == defaultValue
    {
      hide Shape, OnlyAdds, AddsOnly, Says;
      Sizes(nodes, recs);
      var l := LookupSection(top, section);
      ReadAt(section, key);
      r := LookupValue(l, key);
      if r == "" { return defaultValue; }
      l := LookupSection(top, section);
      ReadAt(section, key);
      r := LookupValue(l, key);
    }
  }

  method DumpHeader(s: string, depth: nat, sname: string) returns (r: string)
    ensures r == s + if sname == "" then HeaderText(depth, "") else "\n" + HeaderText(depth, sname) + "\n"
  {
    r := s;
    if sname != "" { r := r + "\n"; }
    ghost var a := r;
    for k := 0 to depth
      invariant r == a + Repeat('[', k)
    {
      r := r + "[";
    }
    if sname != "" { r := r + sname; }
    ghost var b := r;
    for k := 0 to depth
      invariant r == b + Repeat(']', k)
    {
      r := r + "]";
    }
    if sname != "" { r := r + "\n"; }
  }

  method DumpValues(s: string, l: Level, ghost entries: seq<Entry>) returns (r: string)
    requires Lists(Now(l), entries)
    ensures r == s + EntriesText(entries)
  {
    r := s;
    for k := 0 to |l.orderedValues|
      invariant r + EntriesText(entries[k..]) == s + EntriesText(entries)
    {
      var key := l.orderedValues[k];
      r := r + key + "=" + l.values[key] + "\n";
    }
  }

  lemma {:induction false} OwnLists(nodes: seq<Level>, recs: seq<Record>, i: nat)
    requires Shape(nodes, recs) && i < |recs|
    ensures nodes[i].depth == recs[i].depth && Lists(Now(nodes[i]), recs[i].entries)
    ensures |nodes[i].orderedSections| == |Children(recs, i)|
    ensures KidAt(recs, i, 0) == i + 1 && KidAt(recs, i, |Children(recs, i)|) == EndOf(recs, i)
  {
    hide Lists, Distinct, Children;
    ParentBelow(recs, i);
    assert Carries(Now(nodes[i]), nodes, recs, i);
    FirstChildFollows(recs, i);
  }

  // The k-th listed section is the level of the k-th child, one deeper, and the next child starts where it ends.
  lemma Kid(nodes: seq<Level>, recs: seq<Record>, i: nat, k: nat) returns (c: nat)
    requires Shape(nodes, recs) && i < |recs| && k < |nodes[i].orderedSections|
    ensures k < |Children(recs, i)| && c == KidAt(recs, i, k) && i < c < |recs|
    ensures var l, name := nodes[i], nodes[i].orderedSections[k];
            name == recs[c].name && name in l.sections && l.sections[name] == nodes[c] && nodes[c].depth == l.depth + 1
    ensures EndOf(recs, c) == KidAt(recs, i, k + 1)
  {
    hide Lists, Distinct, Children;
    ParentBelow(recs, i);
    assert Carries(Now(nodes[i]), nodes, recs, i);
    c := Children(recs, i)[k];
    ChildrenInside(recs, i, c);
    AtNode(nodes, recs, c);
    SubtreesAdjoin(recs, i, k);
  }

  lemma {:induction false} Appended(s: string, recs: seq<Record>, a: nat, b: nat, c: nat)
    requires a <= b <= c <= |recs|
    ensures s + RangeText(recs, a, b) + RangeText(recs, b, c) == s + RangeText(recs, a, c)
  {
    hide RangeText;
    RangeSplits(recs, a, b, c);
  }

  lemma {:induction false} OwnText(s: string, recs: seq<Record>, i: nat)
    requires i < |recs|
    ensures var r := recs[i];
            s + (if r.name == "" then HeaderText(r.depth, "") else "\n" + HeaderText(r.depth, r.name) + "\n")
            + EntriesText(r.entries) == s + RangeText(recs, i, i + 1)
  {
    hide HeaderText, EntriesText;
    assert RangeText(recs, i, i + 1) == RecordText(recs[i]) + "";
  }

  ghost predicate GainsOnly(was: Cell, c: Cell, added: set<Level>) {
    && c == was.(sections := c.sections)
    && forall name :: name in c.sections ==>
         (name in was.sections && c.sections[name] == was.sections[name]) || c.sections[name] in added
  }

  lemma StillOnlyAdds(was: Cell, c: Cell, recs: seq<Record>, i: nat, before: set<Level>, after: set<Level>)
    requires i < |recs| && OnlyAdds(was, recs, i, before) && before <= after && GainsOnly(was, c, after)
    ensures OnlyAdds(c, recs, i, after)
  {
    hide HasKey, HasChild;
  }

  lemma StillAddsOnly(was: Cell, c: Cell, before: set<Level>, after: set<Level>)
    requires AddsOnly(was, before) && before <= after && GainsOnly(was, c, after)
    ensures AddsOnly(c, after)
  {
  }

  lemma ShownEmpty(c: Cell, added: set<Level>)
    requires c.values == map[] && c.sections == map[]
    ensures AddsOnly(c, added)
  {
  }

  lemma ChildHeld(nodes: seq<Level>, recs: seq<Record>, i: nat, name: string)
    requires Shape(nodes, recs) && i < |recs| && HasChild(recs, i, name)
    ensures name in nodes[i].sections && nodes[i].sections[name] in nodes
    ensures forall j :: 0 <= j < |recs| && recs[j].parent == i && recs[j].name == name ==> nodes[i].sections[name] == nodes[j]
  {
    hide Tree, Lists;
    ParentBelow(recs, i);
    assert Carries(Now(nodes[i]), nodes, recs, i);
    ChildrenAre(recs, i);
    forall j: nat | j < |recs| && recs[j].parent == i && recs[j].name == name
      ensures name in nodes[i].sections && nodes[i].sections[name] == nodes[j]
    {
      assert j in Children(recs, i);
    }
  }

  lemma CarriesMore(was: Cell, c: Cell, nodes: seq<Level>, recs: seq<Record>, i: nat)
    requires i < |recs| == |nodes| && recs[i].parent < |recs| && Carries(was, nodes, recs, i)
    requires c == was.(values := c.values, sections := c.sections)
    requires forall name :: name in was.values ==> name in c.values && c.values[name] == was.values[name]
    requires forall name :: name in was.sections ==> name in c.sections && c.sections[name] == was.sections[name]
    ensures Carries(c, nodes, recs, i)
  {
    hide Children;
  }

  lemma Sizes(nodes: seq<Level>, recs: seq<Record>)
    requires Shape(nodes, recs)
    ensures |nodes| == |recs| > 0
  {
  }

  lemma TopAlone(nodes: seq<Level>)
    requires |nodes| == 1 && Now(nodes[0]) == Cell(map[], map[], [], [], null, 0)
    ensures Shape(nodes, [TOP]) && Exact(nodes, [TOP])
  {
    hide Children, Tree, Preorder, Distinct;
    TopIsTree();
  }

  lemma TopIsTree()
    ensures Tree([TOP]) && Children([TOP], 0) == []
  {
    assert [TOP][..0] == [];
  }

  lemma NothingAdded(nodes: seq<Level>, recs: seq<Record>)
    requires Shape(nodes, recs) && Exact(nodes, recs)
    ensures |nodes| == |recs| > 0 && forall i :: 0 <= i < |recs| ==> OnlyAdds(Now(nodes[i]), recs, i, {})
  {
  }

  lemma NothingToDo(recs: seq<Record>)
    requires |recs| > 0
    ensures Apply(recs, Content("")) == Apply(recs, Ignored) == Next(recs)
  {
  }

  lemma {:induction false} RunLine(recs: seq<Record>, line: string, rest: seq<string>, n: nat)
    requires |recs| > 0
    ensures Run(recs, [line] + rest, n) ==
            match Apply(recs, Classify(line))
            case Next(next) => Run(next, rest, n + 1)
            case Stop(error) => Failed(error, n + 1)
  {
    hide Apply, Classify;
    assert ([line] + rest)[1..] == rest;
  }

  // std::string::find, with the length standing for npos.
  method FindFirst(s: string, c: char) returns (n: nat)
    ensures n == Find(s, c)
  {
    n := 0;
    while n < |s| && s[n] != c
      invariant n <= |s| && forall k :: 0 <= k < n ==> s[k] != c
    {
      n := n + 1;
    }
  }

  lemma KnownKey(c: Cell, nodes: seq<Level>, recs: seq<Record>, i: nat, key: string)
    requires i < |recs| == |nodes| && recs[i].parent < |recs| && Carries(c, nodes, recs, i) && Bare(c, recs, i)
    ensures key in c.values <==> HasKey(recs[i].entries, key)
  {
    hide Holds;
  }

  ghost predicate OnlyEntries(recs: seq<Record>, next: seq<Record>) {
    |recs| == |next| && forall i :: 0 <= i < |recs| ==> next[i] == recs[i].(entries := next[i].entries)
  }

  lemma BesidePair(c: Cell, nodes: seq<Level>, recs: seq<Record>, next: seq<Record>, i: nat)
    requires OnlyEntries(recs, next) && i < |recs| == |nodes| && recs[i].parent < |recs| && next[i] == recs[i]
    requires Carries(c, nodes, recs, i) && Bare(c, recs, i)
    ensures Carries(c, nodes, next, i) && Bare(c, next, i)
  {
    hide Children, Lists;
    ChildrenSame(recs, next, i);
    SameChildren(recs, next, i);
  }

  lemma SameChildren(recs: seq<Record>, next: seq<Record>, i: nat)
    requires OnlyEntries(recs, next)
    ensures forall name :: HasChild(recs, i, name) ==> HasChild(next, i, name)
  {
  }

  lemma WithPair(was: Cell, c: Cell, nodes: seq<Level>, recs: seq<Record>, next: seq<Record>, e: Entry)
    requires 0 < |recs| == |nodes| && OnlyEntries(recs, next)
    requires recs[|recs| - 1].parent < |recs| && Carries(was, nodes, recs, |recs| - 1) && Bare(was, recs, |recs| - 1)
    requires !HasKey(recs[|recs| - 1].entries, e.key) && next[|recs| - 1].entries == recs[|recs| - 1].entries + [e]
    requires c == was.(values := was.values[e.key := e.value], orderedValues := was.orderedValues + [e.key])
    ensures Carries(c, nodes, next, |recs| - 1) && Bare(c, next, |recs| - 1)
  {
    hide Children;
    var i := |recs| - 1;
    ChildrenSame(recs, next, i);
    SameChildren(recs, next, i);
    var es := recs[i].entries;
    forall name | name in c.values ensures HasKey(es + [e], name) {
      if name == e.key {
        assert (es + [e])[|es|] == e;
      } else {
        var k :| 0 <= k < |es| && es[k].key == name;
        assert (es + [e])[k] == es[k];
      }
    }
  }

  // A section already in the map of level p is a child of record p, and its depth is not 0.
  lemma KnownSection(nodes: seq<Level>, recs: seq<Record>, p: nat, name: string)
    requires Shape(nodes, recs) && Exact(nodes, recs) && p < |recs|
    ensures name in nodes[p].sections <==> HasChild(recs, p, name)
    ensures name in nodes[p].sections ==> nodes[p].sections[name] in nodes && nodes[p].sections[name].depth > 0
  {
    assert Carries(Now(nodes[p]), nodes, recs, p);
    ChildrenAre(recs, p);
    if HasChild(recs, p, name) {
      var i: nat :| i < |recs| && recs[i].parent == p && recs[i].name == name;
      assert i in Children(recs, p);
      assert Placed(recs, i) && Carries(Now(nodes[i]), nodes, recs, i);
    }
  }

  lemma StillChild(recs: seq<Record>, r: Record, i: nat, name: string)
    requires HasChild(recs, i, name)
    ensures HasChild(recs + [r], i, name)
  {
    var j :| 0 <= j < |recs| && recs[j].parent == i && recs[j].name == name;
    assert (recs + [r])[j] == recs[j];
  }

  lemma BareStays(c: Cell, recs: seq<Record>, r: Record, i: nat)
    requires i < |recs| && Bare(c, recs, i)
    ensures Bare(c, recs + [r], i)
  {
    hide HasChild, HasKey;
    forall name | name in c.sections ensures HasChild(recs + [r], i, name) {
      StillChild(recs, r, i, name);
    }
  }

  lemma WithSibling(c: Cell, nodes: seq<Level>, recs: seq<Record>, lp: Level, r: Record, i: nat)
    requires i < |recs| == |nodes| && r.parent != i
    requires Carries(c, nodes, recs, i) && Bare(c, recs, i) && recs[i].parent < |recs|
    ensures Carries(c, nodes + [lp], recs + [r], i) && Bare(c, recs + [r], i)
  {
  }

  lemma WithChild(was: Cell, c: Cell, nodes: seq<Level>, recs: seq<Record>, lp: Level, r: Record, i: nat)
    requires i < |recs| == |nodes| && r.parent == i && recs[i].parent < |recs|
    requires Carries(was, nodes, recs, i) && Bare(was, recs, i) && !HasChild(recs, i, r.name)
    requires c == was.(sections := was.sections[r.name := lp], orderedSections := was.orderedSections + [r.name])
    ensures Carries(c, nodes + [lp], recs + [r], i) && Bare(c, recs + [r], i)
  {
    hide Children, Bare, Holds;
    ChildrenAppend(recs, r, i);
    HoldsOneMore(was, c, nodes, recs, lp, r, Children(recs, i));
    BareStays(was, recs, r, i);
    BareOneMore(was, c, recs + [r], i, r.name);
  }

  lemma HoldsOneMore(was: Cell, c: Cell, nodes: seq<Level>, recs: seq<Record>, lp: Level, r: Record, kids: seq<nat>)
    requires |nodes| == |recs| && (forall k :: 0 <= k < |kids| ==> kids[k] < |recs| && recs[kids[k]].parent == r.parent)
    requires Holds(was, nodes, recs, kids) && !HasChild(recs, r.parent, r.name)
    requires c == was.(sections := was.sections[r.name := lp], orderedSections := was.orderedSections + [r.name])
    ensures Holds(c, nodes + [lp], recs + [r], kids + [|recs|])
  {
    assert forall k :: 0 <= k < |kids| ==> recs[kids[k]].name != r.name;
  }

  lemma BareOneMore(was: Cell, c: Cell, recs: seq<Record>, i: nat, name: string)
    requires i < |recs| && recs[|recs| - 1].parent == i && recs[|recs| - 1].name == name && Bare(was, recs, i)
    requires c.values == was.values && c.sections.Keys == was.sections.Keys + {name}
    ensures Bare(c, recs, i)
  {
  }

  lemma NewLevel(c: Cell, nodes: seq<Level>, recs: seq<Record>, r: Record)
    requires Preorder(recs) && |nodes| == |recs| + 1 && 0 <= r.parent < |recs| && r.entries == []
    requires c == Cell(map[], map[], [], [], nodes[r.parent], r.depth)
    ensures Carries(c, nodes, recs + [r], |recs|) && Bare(c, recs + [r], |recs|)
  {
    hide Children, Preorder;
    NoChildrenYet(recs);
    ChildrenAppend(recs, r, |recs|);
  }
}
