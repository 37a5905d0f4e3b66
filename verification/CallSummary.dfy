/**
 What the summary of a call graph should say, on values: how often and how long a method ran anywhere
 below a node, and how long it ran together with what it called, recursion counted once.
 */
module CallSummary {
  import opened Sets

  /** A call-graph node: `inner` if it has a list of children, `top` if it is the root of a profile. */
  datatype Tree = Tree(name: string, count: int, only: int, kids: int, inner: bool, top: bool, children: seq<Tree>)

  /** All nodes with the given name. */
  function Named(t: Tree, x: string): seq<Tree> {
    (if t.name == x then [t] else []) + NamedAll(t.children, x)
  }

  function NamedAll(ts: seq<Tree>, x: string): seq<Tree> {
    if ts == [] then [] else NamedAll(ts[..|ts| - 1], x) + Named(ts[|ts| - 1], x)
  }

  /** The nodes with the given name that are not below another one of them. */
  function Outermost(t: Tree, x: string): seq<Tree> {
    if t.name == x then [t] else OutermostAll(t.children, x)
  }

  function OutermostAll(ts: seq<Tree>, x: string): seq<Tree> {
    if ts == [] then [] else OutermostAll(ts[..|ts| - 1], x) + Outermost(ts[|ts| - 1], x)
  }

  function SumCount(ts: seq<Tree>): int {
    if ts == [] then 0 else SumCount(ts[..|ts| - 1]) + ts[|ts| - 1].count
  }

  function SumOnly(ts: seq<Tree>): int {
    if ts == [] then 0 else SumOnly(ts[..|ts| - 1]) + ts[|ts| - 1].only
  }

  /** The cycles of a node and of everything below it. */
  function Total(t: Tree): int {
    t.only + TotalAll(t.children)
  }

  function TotalAll(ts: seq<Tree>): int {
    if ts == [] then 0 else TotalAll(ts[..|ts| - 1]) + Total(ts[|ts| - 1])
  }

  /** A node's cycles with its callees: as recorded, but those of a profile's root are added up. */
  function Inclusive(t: Tree): int {
    if t.top && t.inner then t.kids + Total(t) else t.kids
  }

  function SumInclusive(ts: seq<Tree>): int {
    if ts == [] then 0 else SumInclusive(ts[..|ts| - 1]) + Inclusive(ts[|ts| - 1])
  }

  // ---------------------------------------------------------------- records

  datatype CallRecord = CallRecord(name: string, count: int, onlyCycles: int, kidsCycles: int)

  /** The summary that a node should have for a name. */
  function RecordOf(t: Tree, x: string): CallRecord {
    CallRecord(x, SumCount(Named(t, x)), SumOnly(Named(t, x)), SumInclusive(Outermost(t, x)))
  }

  /** The same for a list of nodes, counting those called `self` only as callees of `self`. */
  function RecordOfAll(ts: seq<Tree>, x: string, self: string): CallRecord {
    CallRecord(x, SumCount(NamedAll(ts, x)), SumOnly(NamedAll(ts, x)), if x == self then 0 else SumInclusive(OutermostAll(ts, x)))
  }

  lemma {:induction false} SumsAppend(a: seq<Tree>, b: seq<Tree>)
    ensures SumCount(a + b) == SumCount(a) + SumCount(b)
    ensures SumOnly(a + b) == SumOnly(a) + SumOnly(b)
    ensures SumInclusive(a + b) == SumInclusive(a) + SumInclusive(b)
  {
    if b == [] {
      assert a + b == a;
    } else {
      SumsAppend(a, b[..|b| - 1]);
      assert (a + b)[..|a + b| - 1] == a + b[..|b| - 1];
    }
  }

  /** Adds another record to this one; the callees' part only if wanted. */
  function Plus(r: CallRecord, other: CallRecord, addKids: bool): CallRecord {
    r.(count := r.count + other.count, onlyCycles := r.onlyCycles + other.onlyCycles,
       kidsCycles := r.kidsCycles + if addKids then other.kidsCycles else 0)
  }

  /** What one more child adds. */
  lemma OneMoreChild(ts: seq<Tree>, i: nat, x: string, self: string)
    requires i < |ts|
    ensures RecordOfAll(ts[..i + 1], x, self) == Plus(RecordOfAll(ts[..i], x, self), RecordOf(ts[i], x), x != self)
  {
    assert ts[..i + 1][..i] == ts[..i];
    SumsAppend(NamedAll(ts[..i], x), Named(ts[i], x));
    SumsAppend(OutermostAll(ts[..i], x), Outermost(ts[i], x));
  }

  /** The node itself, on top of its children. */
  lemma WithItself(t: Tree, x: string)
    ensures RecordOf(t, x) == if x == t.name then Plus(RecordOfAll(t.children, x, t.name), CallRecord(x, t.count, t.only, Inclusive(t)), true)
                              else RecordOfAll(t.children, x, t.name)
  {
    if t.name == x {
      SumsAppend([t], NamedAll(t.children, x));
      assert [t][..0] == [];
    } else {
      assert [] + NamedAll(t.children, x) == NamedAll(t.children, x);
    }
  }

  // ---------------------------------------------------------------- conservation

  /** The cycles summarized under a list of names. */
  function Listed(t: Tree, names: seq<string>): int {
    if names == [] then 0 else Listed(t, names[..|names| - 1]) + SumOnly(Named(t, names[|names| - 1]))
  }

  function ListedAll(ts: seq<Tree>, names: seq<string>): int {
    if names == [] then 0 else ListedAll(ts, names[..|names| - 1]) + SumOnly(NamedAll(ts, names[|names| - 1]))
  }

  ghost predicate NoneTwice(names: seq<string>) {
    forall i, j :: 0 <= i < j < |names| ==> names[i] != names[j]
  }

  lemma {:induction false} ListedSplits(t: Tree, names: seq<string>)
    requires NoneTwice(names)
    ensures Listed(t, names) == (if t.name in names then t.only else 0) + ListedAll(t.children, names)
  {
    if names != [] {
      var init, x := names[..|names| - 1], names[|names| - 1];
      ListedSplits(t, init);
      assert names == init + [x];
      WithItself(t, x);
    }
  }

  lemma {:induction false} ListedAllSplits(ts: seq<Tree>, names: seq<string>)
    requires ts != []
    ensures ListedAll(ts, names) == ListedAll(ts[..|ts| - 1], names) + Listed(ts[|ts| - 1], names)
  {
    if names != [] {
      ListedAllSplits(ts, names[..|names| - 1]);
      SumsAppend(NamedAll(ts[..|ts| - 1], names[|names| - 1]), Named(ts[|ts| - 1], names[|names| - 1]));
    }
  }

  /** Every name that occurs is listed. */
  ghost predicate Covers(names: set<string>, t: Tree) {
    t.name in names && CoversAll(names, t.children)
  }

  ghost predicate CoversAll(names: set<string>, ts: seq<Tree>) {
    forall i :: 0 <= i < |ts| ==> Covers(names, ts[i])
  }

  /** No cycle is lost or counted twice: the summaries of all names add up to the total. */
  lemma {:induction false} CyclesConserved(t: Tree, names: seq<string>)
    requires NoneTwice(names) && Covers(Elements(names), t)
    ensures Listed(t, names) == Total(t)
    decreases t, 1, 0
  {
    ListedSplits(t, names);
    AllConserved(t, t.children, names);
  }

  lemma {:induction false} NothingListed(names: seq<string>)
    ensures ListedAll([], names) == 0
  {
    if names != [] {
      NothingListed(names[..|names| - 1]);
    }
  }

  lemma {:induction false} AllConserved(t: Tree, ts: seq<Tree>, names: seq<string>)
    requires NoneTwice(names) && CoversAll(Elements(names), ts) && ts <= t.children
    ensures ListedAll(ts, names) == TotalAll(ts)
    decreases t, 0, |ts|
  {
    if ts == [] {
      NothingListed(names);
    } else {
      ListedAllSplits(ts, names);
      AllConserved(t, ts[..|ts| - 1], names);
      assert ts[|ts| - 1] == t.children[|ts| - 1];
      CyclesConserved(ts[|ts| - 1], names);
    }
  }

  /** A profile's root that starts without inclusive cycles ends with the total, as its records do together. */
  lemma RootGetsTotal(t: Tree, names: seq<string>)
    requires t.top && t.inner && t.kids == 0 && NoneTwice(names) && Covers(Elements(names), t)
    ensures RecordOf(t, t.name).kidsCycles == Total(t) == Listed(t, names)
  {
    CyclesConserved(t, names);
    WithItself(t, t.name);
  }

  /** A name that is not among those covered does not occur. */
  lemma {:induction false} NotCovered(names: set<string>, t: Tree, x: string)
    requires Covers(names, t) && x !in names
    ensures Named(t, x) == [] && Outermost(t, x) == []
    decreases t, 1, 0
  {
    NoneCovered(names, t, t.children, x);
  }

  lemma {:induction false} NoneCovered(names: set<string>, t: Tree, ts: seq<Tree>, x: string)
    requires CoversAll(names, ts) && x !in names && ts <= t.children
    ensures NamedAll(ts, x) == [] && OutermostAll(ts, x) == []
    decreases t, 0, |ts|
  {
    if ts != [] {
      NoneCovered(names, t, ts[..|ts| - 1], x);
      assert ts[|ts| - 1] == t.children[|ts| - 1];
      NotCovered(names, ts[|ts| - 1], x);
    }
  }

  lemma {:induction false} CoversMore(names: set<string>, more: set<string>, t: Tree)
    requires Covers(names, t) && names <= more
    ensures Covers(more, t)
  {
    forall i | 0 <= i < |t.children| ensures Covers(more, t.children[i]) {
      CoversMore(names, more, t.children[i]);
    }
  }
}
