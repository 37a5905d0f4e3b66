/**
 Call graphs as the profile viewer holds them: every node with callees gets a summary that has one
 record for each method that ran below it.
 */
module ProfView {
  import opened CallSummary
  import opened Sets
  import opened Wrappers

  const MAX_INDEX := 10000000

  /** The record for a name: a new one with nothing in it if there is none yet. */
  function Get(table: map<string, CallRecord>, x: string): CallRecord {
    if x in table then table[x] else CallRecord(x, 0, 0, 0)
  }

  function AddTo(table: map<string, CallRecord>, c: CallRecord, addKids: bool): map<string, CallRecord> {
    table[c.name := Plus(Get(table, c.name), c, addKids)]
  }

  lemma AddedTo(table: map<string, CallRecord>, c: CallRecord, addKids: bool)
    ensures AddTo(table, c, addKids).Keys == table.Keys + {c.name}
    ensures Get(AddTo(table, c, addKids), c.name) == Plus(Get(table, c.name), c, addKids)
    ensures forall x :: x != c.name ==> Get(AddTo(table, c, addKids), x) == Get(table, x)
  {
  }

  /** What the table holds for a name when `i` children have been merged. */
  ghost function Merged(t: Tree, i: nat, x: string): (r: CallRecord)
    requires i <= |t.children|
    ensures r.name == x
  {
    var r := RecordOfAll(t.children[..i], x, t.name);
    if x == t.name then Plus(r, CallRecord(x, t.count, t.only, t.kids), true) else r
  }

  lemma NothingMerged(t: Tree)
    ensures forall x :: Get(map[t.name := CallRecord(t.name, t.count, t.only, t.kids)], x) == Merged(t, 0, x)
  {
    assert t.children[..0] == [];
  }

  lemma OneMoreMerged(t: Tree, i: nat, before: map<string, CallRecord>, after: map<string, CallRecord>)
    requires i < |t.children| && before.Keys <= after.Keys && Covers(after.Keys, t.children[i])
    requires CoversAll(before.Keys, t.children[..i]) && forall x :: Get(before, x) == Merged(t, i, x)
    requires forall x :: Get(after, x) == Plus(Get(before, x), RecordOf(t.children[i], x), x != t.name)
    ensures CoversAll(after.Keys, t.children[..i + 1]) && forall x :: Get(after, x) == Merged(t, i + 1, x)
  {
    forall x ensures Get(after, x) == Merged(t, i + 1, x) {
      OneMoreChild(t.children, i, x, t.name);
    }
    var sofar := t.children[..i + 1];
    forall k | 0 <= k < |sofar| ensures Covers(after.Keys, sofar[k]) {
      if k < i {
        assert sofar[k] == t.children[..i][k];
        CoversMore(before.Keys, after.Keys, sofar[k]);
      }
    }
  }

  lemma AllMerged(t: Tree, table: map<string, CallRecord>)
    requires CoversAll(table.Keys, t.children[..|t.children|]) && t.name in table
    requires forall x :: Get(table, x) == Merged(t, |t.children|, x)
    ensures Covers(table.Keys, t) && forall x <- table :: table[x] == Merged(t, |t.children|, x)
  {
    assert t.children[..|t.children|] == t.children;
    forall x <- table ensures table[x] == Merged(t, |t.children|, x) {
      assert Get(table, x) == table[x];
    }
  }

  function Names(summary: seq<CallRecord>): (r: seq<string>)
    ensures |r| == |summary| && forall i :: 0 <= i < |r| ==> r[i] == summary[i].name
  {
    seq(|summary|, i requires 0 <= i < |summary| => summary[i].name)
  }

  /** One record for every name that occurs, and what it should say. */
  ghost predicate Summarizes(summary: seq<CallRecord>, t: Tree) {
    && NoneTwice(Names(summary)) && Covers(Elements(Names(summary)), t)
    && forall i :: 0 <= i < |summary| ==> summary[i] == RecordOf(t, summary[i].name)
  }

  lemma MergedSummary(table: map<string, CallRecord>, r: map<string, CallRecord>, s: seq<CallRecord>, t: Tree, self: string)
    requires Summarizes(s, t) && r.Keys == table.Keys + Elements(Names(s))
    requires forall k :: 0 <= k < |s| ==> Get(r, s[k].name) == Plus(Get(table, s[k].name), s[k], s[k].name != self)
    requires forall x :: x !in Names(s) ==> Get(r, x) == Get(table, x)
    ensures Covers(r.Keys, t) && forall x :: Get(r, x) == Plus(Get(table, x), RecordOf(t, x), x != self)
  {
    var names := Elements(Names(s));
    CoversMore(names, r.Keys, t);
    forall x ensures Get(r, x) == Plus(Get(table, x), RecordOf(t, x), x != self) {
      if x in Names(s) {
        var k :| 0 <= k < |s| && Names(s)[k] == x;
      } else {
        NotCovered(names, t, x);
      }
    }
  }

  /** A node without children is its own summary. */
  lemma LeafRecord(t: Tree)
    requires t.children == [] && !t.inner
    ensures RecordOf(t, t.name) == CallRecord(t.name, t.count, t.only, t.kids)
    ensures forall x :: x != t.name ==> RecordOf(t, x) == CallRecord(x, 0, 0, 0)
  {
    forall x ensures RecordOf(t, x) == if x == t.name then CallRecord(x, t.count, t.only, t.kids) else CallRecord(x, 0, 0, 0) {
      WithItself(t, x);
    }
  }

  /** The records of the table, in any order. */
  method Records(table: map<string, CallRecord>, ghost t: Tree) returns (s: seq<CallRecord>)
    requires forall x <- table :: table[x] == Merged(t, |t.children|, x)
    requires Covers(table.Keys, t)
    ensures NoneTwice(Names(s)) && Covers(Elements(Names(s)), t)
    ensures forall i :: 0 <= i < |s| ==> s[i] == Merged(t, |t.children|, s[i].name)
  {
    hide Merged, Covers;
    s := [];
    var rest := table.Keys;
    while rest != {}
      invariant rest <= table.Keys && NoneTwice(Names(s))
      invariant forall x :: x in Names(s) <==> x in table && x !in rest
      invariant forall i :: 0 <= i < |s| ==> s[i] == Merged(t, |t.children|, s[i].name)
      decreases |rest|
    {
      var x :| x in rest;
      assert Names(s + [table[x]]) == Names(s) + [x];
      s := s + [table[x]];
      rest := rest - {x};
    }
    assert Elements(Names(s)) == table.Keys;
  }

  /** When all children have been merged, only the node's own callees' part may still differ from what it should be. */
  lemma MergedIsRecord(t: Tree, x: string)
    ensures Merged(t, |t.children|, x) == RecordOf(t, x).(kidsCycles := if x == t.name then t.kids else RecordOf(t, x).kidsCycles)
  {
    assert t.children[..|t.children|] == t.children;
    WithItself(t, x);
  }

  lemma OwnKids(t: Tree)
    ensures Merged(t, |t.children|, t.name).kidsCycles == t.kids
  {
    MergedIsRecord(t, t.name);
  }

  /** The cycles of all records together: every cycle once. */
  method SumRecords(s: seq<CallRecord>, ghost t: Tree) returns (total: int)
    requires NoneTwice(Names(s)) && Covers(Elements(Names(s)), t)
    requires forall i :: 0 <= i < |s| ==> s[i] == Merged(t, |t.children|, s[i].name)
    ensures total == Total(t)
  {
    total := 0;
    ghost var names := Names(s);
    for i := 0 to |s|
      invariant total == Listed(t, names[..i])
    {
      assert names[..i + 1][..i] == names[..i];
      MergedIsRecord(t, names[i]);
      total := total + s[i].onlyCycles;
    }
    assert names[..|s|] == names;
    CyclesConserved(t, names);
  }

  lemma WithoutTopKids(t: Tree, s: seq<CallRecord>)
    requires NoneTwice(Names(s)) && Covers(Elements(Names(s)), t) && !t.top
    requires forall i :: 0 <= i < |s| ==> s[i] == Merged(t, |t.children|, s[i].name)
    ensures Summarizes(s, t)
  {
    forall i | 0 <= i < |s| ensures s[i] == RecordOf(t, s[i].name) {
      MergedIsRecord(t, s[i].name);
      WithItself(t, s[i].name);
    }
  }

  lemma WithTopKids(t: Tree, s: seq<CallRecord>, r: seq<CallRecord>)
    requires NoneTwice(Names(s)) && Covers(Elements(Names(s)), t) && t.top && t.inner && |r| == |s|
    requires forall i :: 0 <= i < |s| ==> s[i] == Merged(t, |t.children|, s[i].name)
    requires forall i :: 0 <= i < |s| ==> r[i] == if s[i].name == t.name then s[i].(kidsCycles := t.kids + Total(t)) else s[i]
    ensures Summarizes(r, t)
  {
    assert Names(r) == Names(s);
    forall i | 0 <= i < |r| ensures r[i] == RecordOf(t, r[i].name) {
      MergedIsRecord(t, s[i].name);
      WithItself(t, s[i].name);
    }
  }

  method SetKids(s: seq<CallRecord>, name: string, kids: int) returns (r: seq<CallRecord>)
    ensures |r| == |s| && forall i :: 0 <= i < |s| ==> r[i] == if s[i].name == name then s[i].(kidsCycles := kids) else s[i]
  {
    r := [];
    for i := 0 to |s|
      invariant |r| == i && forall k :: 0 <= k < i ==> r[k] == if s[k].name == name then s[k].(kidsCycles := kids) else s[k]
    {
      r := r + [if s[i].name == name then s[i].(kidsCycles := kids) else s[i]];
    }
  }

  function Kids(children: Option<seq<CallGraphNode>>): seq<CallGraphNode> {
    if children.Some? then children.value else []
  }

  class CallGraphNode {
    const name: string
    const index: int
    const count: int
    const onlyCycles: int
    var kidsCycles: int
    const children: Option<seq<CallGraphNode>>
    var summary: seq<CallRecord>
    /** All nodes from this one down, which make up a tree of this height. */
    ghost const nodes: set<CallGraphNode>
    ghost const height: nat

    ghost predicate Grounded()
      decreases height
    {
      var cs := Kids(children);
      && this in nodes
      && (forall c <- cs :: c.height < height && c.Grounded() && c.nodes <= nodes && this !in c.nodes)
      && forall i, j :: 0 <= i < j < |cs| ==> cs[i].nodes !! cs[j].nodes
    }

    constructor (name: string, index: int, count: int, onlyCycles: int, kidsCycles: int,
                 children: Option<seq<CallGraphNode>>, ghost height: nat)
      requires forall c <- Kids(children) :: c.Grounded() && c.height < height
      requires forall i, j :: 0 <= i < j < |Kids(children)| ==> Kids(children)[i].nodes !! Kids(children)[j].nodes
      ensures this.name == name && this.index == index && this.count == count && this.onlyCycles == onlyCycles
      ensures this.kidsCycles == kidsCycles && this.children == children && summary == []
      ensures Grounded() && this.height == height && nodes == {this} + set c, n | c in Kids(children) && n in c.nodes :: n
    {
      this.name, this.index, this.count, this.onlyCycles, this.kidsCycles := name, index, count, onlyCycles, kidsCycles;
      this.children, summary, this.height := children, [], height;
      nodes := {this} + set c, n | c in Kids(children) && n in c.nodes :: n;
    }

    predicate IsTopNode() {
      (index + 1) % MAX_INDEX == 0
    }

    /** The call graph from this node down is this tree. */
    ghost predicate Shows(t: Tree)
      requires Grounded()
      reads nodes`kidsCycles
      decreases height
    {
      var cs := Kids(children);
      && t.name == name && t.count == count && t.only == onlyCycles && t.kids == kidsCycles
      && t.inner == children.Some? && t.top == IsTopNode() && |t.children| == |cs|
      && forall i :: 0 <= i < |cs| ==> cs[i].Shows(t.children[i])
    }

    /** Every node with callees, from this one down, has the summary and the inclusive cycles that it should have. */
    ghost predicate AllSummarized(t: Tree)
      requires Grounded()
      reads nodes`summary, nodes`kidsCycles
      decreases height
    {
      var cs := Kids(children);
      && (children.Some? ==> Summarizes(summary, t) && kidsCycles == Inclusive(t))
      && |t.children| == |cs|
      && forall i :: 0 <= i < |cs| ==> cs[i].AllSummarized(t.children[i])
    }

    /** The summary made of a table of all children, and the node's cycles with its callees. */
    method Summary(table: map<string, CallRecord>, ghost t: Tree) returns (s: seq<CallRecord>, kids: int)
      requires t.name == name && t.kids == kidsCycles && t.inner && t.top == IsTopNode() && name in table
      requires Covers(table.Keys, t) && forall x <- table :: table[x] == Merged(t, |t.children|, x)
      ensures Summarizes(s, t) && kids == Inclusive(t)
    {
      s := Records(table, t);
      kids := kidsCycles;
      OwnKids(t);
      if IsTopNode() {
        var total := SumRecords(s, t);
        kids := table[name].kidsCycles + total;
        ghost var before := s;
        s := SetKids(s, name, kids);
        WithTopKids(t, before, s);
      } else {
        WithoutTopKids(t, s);
      }
    }

    /**
     Summarizes this node and everything below it. The record of a profile's root gets the cycles of all
     records added up; in the source that record is shared between the table and the summary.
     */
    method ComputeSummary(ghost t: Tree)
      requires Grounded() && Shows(t) && children.Some?
      modifies nodes`summary, nodes`kidsCycles
      ensures Summarizes(summary, t) && kidsCycles == Inclusive(t) && AllSummarized(t)
      decreases height, 1
    {
      hide Summarizes, Covers, Merged, Inclusive;
      var table := MergeChildren(t);
      summary, kidsCycles := Summary(table, t);
    }

    /** The children from the `i`-th on are as in the tree, and those before have been summarized. */
    ghost predicate HalfMerged(t: Tree, i: nat)
      requires Grounded()
      reads nodes`summary, nodes`kidsCycles
    {
      var cs := Kids(children);
      && |t.children| == |cs| && i <= |cs|
      && (forall k :: i <= k < |cs| ==> cs[k].Shows(t.children[k]))
      && (forall k :: 0 <= k < i ==> cs[k].AllSummarized(t.children[k]))
    }

    method MergeNext(table: map<string, CallRecord>, i: nat, ghost t: Tree) returns (r: map<string, CallRecord>)
      requires Grounded() && HalfMerged(t, i) && children.Some? && i < |children.value|
      modifies nodes`summary, nodes`kidsCycles
      ensures HalfMerged(t, i + 1) && kidsCycles == old(kidsCycles)
      ensures table.Keys <= r.Keys && Covers(r.Keys, t.children[i])
      ensures forall x :: Get(r, x) == Plus(Get(table, x), RecordOf(t.children[i], x), x != name)
      decreases height, 0, 1
    {
      hide Get, Plus, RecordOf, Covers, Summarizes, Inclusive;
      var child := children.value[i];
      assert child.height < height && child.Grounded() && child.nodes <= nodes && this !in child.nodes;
      assert forall k :: 0 <= k < |children.value| && k != i ==> children.value[k].nodes !! child.nodes;
      r := MergeChild(table, child, t.children[i]);
    }

    /** Merges the summaries of all children, and this node itself, into a table. */
    method MergeChildren(ghost t: Tree) returns (table: map<string, CallRecord>)
      requires Grounded() && Shows(t) && children.Some?
      modifies nodes`summary, nodes`kidsCycles
      ensures kidsCycles == old(kidsCycles) && name in table
      ensures Covers(table.Keys, t) && forall x <- table :: table[x] == Merged(t, |t.children|, x)
      ensures HalfMerged(t, |t.children|)
      decreases height, 0, 2
    {
      hide Merged, Get, Covers;
      table := map[name := CallRecord(name, count, onlyCycles, kidsCycles)];
      var v := children.value;
      NothingMerged(t);
      for i := 0 to |v|
        invariant kidsCycles == old(kidsCycles) && name in table
        invariant HalfMerged(t, i)
        invariant forall x :: Get(table, x) == Merged(t, i, x)
        invariant CoversAll(table.Keys, t.children[..i])
      {
        ghost var before := table;
        table := MergeNext(table, i, t);
        OneMoreMerged(t, i, before, table);
      }
      AllMerged(t, table);
    }

    method MergeSummary(table: map<string, CallRecord>, s: seq<CallRecord>) returns (r: map<string, CallRecord>)
      requires NoneTwice(Names(s))
      ensures r.Keys == table.Keys + Elements(Names(s))
      ensures forall k :: 0 <= k < |s| ==> Get(r, s[k].name) == Plus(Get(table, s[k].name), s[k], s[k].name != name)
      ensures forall x :: x !in Names(s) ==> Get(r, x) == Get(table, x)
    {
      hide Get, Plus, AddTo;
      r := table;
      var j := |s|;
      ghost var names, done := Names(s), {};
      while j > 0
        invariant 0 <= j <= |s| && done <= Elements(names) && r.Keys == table.Keys + done
        invariant forall k :: 0 <= k < |s| ==> (names[k] in done <==> j <= k)
        invariant forall k :: j <= k < |s| ==> Get(r, names[k]) == Plus(Get(table, names[k]), s[k], names[k] != name)
        invariant forall x :: x !in done ==> Get(r, x) == Get(table, x)
      {
        j := j - 1;
        AddedTo(r, s[j], s[j].name != name);
        r := AddTo(r, s[j], s[j].name != name);
        done := done + {names[j]};
      }
    }

    /** Merges one child: its summary, or if it has no callees, the child itself. */
    method MergeChild(table: map<string, CallRecord>, child: CallGraphNode, ghost t: Tree) returns (r: map<string, CallRecord>)
      requires child.Grounded() && child.Shows(t) && child.height < height
      modifies child.nodes`summary, child.nodes`kidsCycles
      ensures table.Keys <= r.Keys && Covers(r.Keys, t)
      ensures forall x :: Get(r, x) == Plus(Get(table, x), RecordOf(t, x), x != name)
      ensures child.AllSummarized(t)
      decreases height, 0, 0
    {
      if child.children != None {
        child.ComputeSummary(t);
        r := MergeSummary(table, child.summary);
        MergedSummary(table, r, child.summary, t, name);
      } else {
        r := AddTo(table, CallRecord(child.name, child.count, child.onlyCycles, child.kidsCycles), child.name != name);
        LeafRecord(t);
      }
    }
  }
}
