/** Children and subtrees of a tree in preorder. */
module IniOrder {
  import opened IniText
  import opened IniTree

  // The sections directly inside record p, in file order.
  ghost function Children(recs: seq<Record>, p: int): (c: seq<nat>)
    ensures forall k :: 0 <= k < |c| ==> c[k] < |recs| && recs[c[k]].parent == p
  {
    if recs == [] then []
    else
      var n := |recs| - 1;
      Children(recs[..n], p) + (if recs[n].parent == p then [n] else [])
  }

  lemma {:induction false} ChildrenAre(recs: seq<Record>, p: int)
    ensures var c := Children(recs, p);
            (forall k, m :: 0 <= k < m < |c| ==> c[k] < c[m]) &&
            (forall i: nat :: i < |recs| && recs[i].parent == p ==> i in c)
  {
    if recs != [] {
      var n := |recs| - 1;
      ChildrenAre(recs[..n], p);
      assert forall i: nat :: i < n ==> recs[..n][i] == recs[i];
    }
  }

  lemma {:induction false} ChildrenAppend(recs: seq<Record>, r: Record, i: int)
    ensures Children(recs + [r], i) == if r.parent == i then Children(recs, i) + [|recs|] else Children(recs, i)
  {
    assert (recs + [r])[..|recs|] == recs;
  }

  lemma ParentBelow(recs: seq<Record>, i: nat)
    requires Tree(recs)
    ensures i < |recs| ==> recs[i].parent < i
    ensures Preorder(recs) && |recs| > 0
  {
    if 0 < i < |recs| { assert Placed(recs, i); }
  }

  lemma {:induction false} NoChildren(recs: seq<Record>, p: int)
    requires forall i :: 0 <= i < |recs| ==> recs[i].parent != p
    ensures Children(recs, p) == []
  {
    if recs != [] { NoChildren(recs[..|recs| - 1], p); }
  }

  lemma {:induction false} NoChildrenYet(recs: seq<Record>)
    requires Preorder(recs)
    ensures Children(recs, |recs|) == []
  {
    forall i | 0 <= i < |recs| ensures recs[i].parent != |recs| {
      if i > 0 { assert Placed(recs, i); }
    }
    NoChildren(recs, |recs|);
  }

  // Two lists of records that differ in entries only have the same children.
  lemma {:induction false} ChildrenSame(recs: seq<Record>, next: seq<Record>, p: int)
    requires |recs| == |next| && forall i :: 0 <= i < |recs| ==> recs[i].parent == next[i].parent
    ensures Children(recs, p) == Children(next, p)
  {
    if recs != [] {
      ChildrenSame(recs[..|recs| - 1], next[..|recs| - 1], p);
    }
  }

  // One past the last record inside record i.
  ghost function EndOf(recs: seq<Record>, i: nat): (e: nat)
    requires i < |recs|
    ensures i < e <= |recs| && (forall j :: i < j < e ==> recs[j].depth > recs[i].depth)
    ensures e < |recs| ==> recs[e].depth <= recs[i].depth
  {
    EndFrom(recs, i, i + 1)
  }

  ghost function EndFrom(recs: seq<Record>, i: nat, j: nat): (e: nat)
    requires i < j <= |recs|
    ensures j <= e <= |recs| && (forall k :: j <= k < e ==> recs[k].depth > recs[i].depth)
    ensures e < |recs| ==> recs[e].depth <= recs[i].depth
    decreases |recs| - j
  {
    if j < |recs| && recs[j].depth > recs[i].depth then EndFrom(recs, i, j + 1) else j
  }

  // Where child k of record i stands; after the last child, where record i ends.
  ghost function KidAt(recs: seq<Record>, i: nat, k: nat): (e: nat)
    requires i < |recs| && k <= |Children(recs, i)|
    ensures e <= |recs|
  {
    if k < |Children(recs, i)| then Children(recs, i)[k] else EndOf(recs, i)
  }

  // A record that directly follows record i or the end of one of its children, and is deeper than i, is a child of i.
  lemma NextIsChild(recs: seq<Record>, i: nat, e: nat)
    requires Preorder(recs) && i < e < |recs| && recs[e].depth == recs[i].depth + 1
    requires forall j :: i < j < e ==> recs[j].depth > recs[i].depth
    ensures recs[e].parent == i
  {
    assert Placed(recs, e);
  }

  lemma ChildrenInside(recs: seq<Record>, i: nat, c: nat)
    requires Preorder(recs) && c < |recs| && recs[c].parent == i
    ensures i < c < EndOf(recs, i) && recs[c].depth == recs[i].depth + 1
  {
    hide EndOf;
    assert Placed(recs, c);
  }

  lemma FirstChildFollows(recs: seq<Record>, i: nat)
    requires Preorder(recs) && i < |recs|
    ensures KidAt(recs, i, 0) == i + 1
  {
    hide EndOf, Children;
    var kids, e := Children(recs, i), EndOf(recs, i);
    ChildrenAre(recs, i);
    if kids != [] { ChildrenInside(recs, i, kids[0]); }
    if i + 1 < e {
      assert Placed(recs, i + 1);
      assert recs[i + 1].parent == i;
      assert i + 1 in kids;
    }
  }

  // The subtrees of the children follow each other without a gap, up to the end of the parent's.
  lemma {:induction false} SubtreesAdjoin(recs: seq<Record>, i: nat, k: nat)
    requires Preorder(recs) && i < |recs| && k < |Children(recs, i)|
    ensures EndOf(recs, Children(recs, i)[k]) == KidAt(recs, i, k + 1)
  {
    hide EndOf, Children, Preorder;
    var kids, end := Children(recs, i), EndOf(recs, i);
    var c := kids[k];
    var e := EndOf(recs, c);
    ChildrenAre(recs, i);
    ChildrenInside(recs, i, c);
    if k + 1 < |kids| { ChildrenInside(recs, i, kids[k + 1]); }
    if e < end {
      NextIsChild(recs, i, e);
      var m :| 0 <= m < |kids| && kids[m] == e;
      assert k < m;
    }
  }

  lemma AllInsideTop(recs: seq<Record>)
    requires Preorder(recs)
    ensures EndOf(recs, 0) == |recs|
  {
    forall i | 0 < i < |recs| ensures recs[i].depth > 0 { assert Placed(recs, i); }
  }

  lemma {:induction false} RangeSplits(recs: seq<Record>, a: nat, b: nat, c: nat)
    requires a <= b <= c <= |recs|
    ensures RangeText(recs, a, c) == RangeText(recs, a, b) + RangeText(recs, b, c)
    decreases b - a
  {
    hide RecordText;
    if a < b { RangeSplits(recs, a + 1, b, c); }
  }
}
