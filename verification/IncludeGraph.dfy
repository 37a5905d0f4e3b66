/**
 Include graphs, as values: what is reachable, what is cyclic, and lists in which every file
 stands once and after everything it includes.
 */
module IncludeGraph {

  /** Every file with the files it includes, in order. */
  type Graph<F> = map<F, seq<F>>

  ghost predicate AllIn<F>(list: seq<F>, g: Graph<F>) {
    forall h <- list :: h in g
  }

  /** The graph leads nowhere outside itself. */
  ghost predicate Closed<F>(g: Graph<F>) {
    forall f {:trigger g[f]} :: f in g ==> AllIn(g[f], g)
  }

  ghost function Files<F>(list: seq<F>): set<F> {
    set f | f in list
  }

  // ---------------------------------------------------------------- reachability

  ghost function Next<F>(g: Graph<F>, fs: set<F>): set<F> {
    set f, h | f in fs && f in g && h in g[f] :: h
  }

  /** What is reached from `roots` in at most `n` inclusions. */
  ghost function Walk<F>(g: Graph<F>, roots: set<F>, n: nat): set<F> {
    if n == 0 then roots else Walk(g, roots, n - 1) + Next(g, Walk(g, roots, n - 1))
  }

  ghost predicate Reaches<F>(g: Graph<F>, roots: set<F>, f: F) {
    exists n: nat :: f in Walk(g, roots, n)
  }

  /** The files of the graph that `roots` include, directly or not, with the roots. */
  ghost function Closure<F>(g: Graph<F>, roots: set<F>): set<F> {
    set f <- g.Keys | Reaches(g, roots, f)
  }

  /** A file that includes itself, directly or not. */
  ghost predicate Cyclic<F>(g: Graph<F>, f: F) {
    f in g && Reaches(g, Files(g[f]), f)
  }

  /** Including this list leads to files that include each other in a cycle. */
  ghost predicate MeetsCycle<F>(g: Graph<F>, list: seq<F>) {
    exists f <- Closure(g, Files(list)) :: Cyclic(g, f)
  }

  lemma ReachesNext<F>(g: Graph<F>, roots: set<F>, f: F, h: F)
    requires Reaches(g, roots, f) && f in g && h in g[f]
    ensures Reaches(g, roots, h)
  {
    var n: nat :| f in Walk(g, roots, n);
    assert h in Walk(g, roots, n + 1);
  }

  lemma RootReached<F>(g: Graph<F>, roots: set<F>, f: F)
    requires f in roots
    ensures Reaches(g, roots, f)
  {
    assert f in Walk(g, roots, 0);
  }

  /** A set that holds the roots and all that its files include holds everything reachable. */
  lemma {:induction false} ClosedHoldsWalk<F>(g: Graph<F>, roots: set<F>, n: nat, all: set<F>)
    requires roots <= all && forall f <- all :: f in g && forall h <- g[f] :: h in all
    ensures Walk(g, roots, n) <= all
  {
    if n > 0 {
      ClosedHoldsWalk(g, roots, n - 1, all);
    }
  }

  ghost function Part<F>(g: Graph<F>, part: set<F>): Graph<F> {
    map f | f in g && f in part :: g[f]
  }

  /** A part of a graph reaches no more than the graph. */
  lemma {:induction false} PartReachesLess<F>(g: Graph<F>, part: set<F>, roots: set<F>, n: nat)
    ensures Walk(Part(g, part), roots, n) <= Walk(g, roots, n)
  {
    if n > 0 {
      PartReachesLess(g, part, roots, n - 1);
    }
  }

  lemma PartCyclic<F>(g: Graph<F>, part: set<F>, f: F)
    requires Cyclic(Part(g, part), f)
    ensures Cyclic(g, f)
  {
    var n: nat :| f in Walk(Part(g, part), Files(Part(g, part)[f]), n);
    PartReachesLess(g, part, Files(g[f]), n);
  }

  lemma ClosureIsClosed<F>(g: Graph<F>, roots: set<F>)
    requires Closed(g) && forall f <- roots :: f in g
    ensures Closed(Part(g, Closure(g, roots))) && roots <= Closure(g, roots) == Part(g, Closure(g, roots)).Keys
  {
    forall f <- Closure(g, roots) ensures AllIn(g[f], Part(g, Closure(g, roots))) {
      forall h <- g[f] ensures h in Closure(g, roots) {
        ReachesNext(g, roots, f, h);
      }
    }
    forall f <- roots ensures f in Closure(g, roots) {
      RootReached(g, roots, f);
    }
  }

  // ---------------------------------------------------------------- order

  /** Everything the file at place `i` includes stands before it. */
  ghost predicate AfterIncludes<F>(g: Graph<F>, list: seq<F>, i: nat)
    requires i < |list|
  {
    list[i] in g && forall h <- g[list[i]] :: h in list[..i]
  }

  /** No file twice, and each after all it includes. */
  ghost predicate Ordered<F>(g: Graph<F>, list: seq<F>) {
    && (forall i, j :: 0 <= i < j < |list| ==> list[i] != list[j])
    && (forall i {:trigger AfterIncludes(g, list, i)} :: 0 <= i < |list| ==> AfterIncludes(g, list, i))
  }

  lemma OrderedIsClosed<F>(g: Graph<F>, list: seq<F>)
    requires Ordered(g, list)
    ensures forall f <- list :: f in g && forall h <- g[f] :: h in list
  {
    forall f <- list ensures f in g && forall h <- g[f] :: h in list {
      var i :| 0 <= i < |list| && list[i] == f;
      assert AfterIncludes(g, list, i);
    }
  }

  lemma OrderedAppend<F>(g: Graph<F>, list: seq<F>, f: F)
    requires Ordered(g, list) && f in g && f !in list && forall h <- g[f] :: h in list
    ensures Ordered(g, list + [f])
  {
    var r := list + [f];
    forall i | 0 <= i < |r| ensures AfterIncludes(g, r, i) {
      if i < |list| {
        assert AfterIncludes(g, list, i) && r[..i] == list[..i];
      } else {
        assert r[..i] == list;
      }
    }
  }

  /** An ordered list that holds the roots holds their closure. */
  lemma OrderedHoldsClosure<F>(g: Graph<F>, list: seq<F>, roots: set<F>)
    requires Ordered(g, list) && roots <= Files(list)
    ensures Closure(g, roots) <= Files(list)
  {
    OrderedIsClosed(g, list);
    forall f <- Closure(g, roots) ensures f in list {
      var n: nat :| f in Walk(g, roots, n);
      ClosedHoldsWalk(g, roots, n, Files(list));
    }
  }

  lemma OrderedInPart<F>(g: Graph<F>, part: set<F>, list: seq<F>)
    requires Ordered(Part(g, part), list)
    ensures Ordered(g, list)
  {
    forall i | 0 <= i < |list| ensures AfterIncludes(g, list, i) {
      assert AfterIncludes(Part(g, part), list, i);
    }
  }

  /** A file that can be put in order is not part of a cycle. */
  lemma OrderedIsAcyclic<F>(g: Graph<F>, list: seq<F>, i: nat)
    requires Ordered(g, list) && i < |list|
    ensures !Cyclic(g, list[i])
  {
    assert AfterIncludes(g, list, i);
    var before := list[..i];
    forall f <- Files(before) ensures f in g && forall h <- g[f] :: h in Files(before) {
      var k :| 0 <= k < i && before[k] == f;
      assert AfterIncludes(g, list, k) && list[..k] <= before;
    }
    forall n: nat ensures list[i] !in Walk(g, Files(g[list[i]]), n) {
      ClosedHoldsWalk(g, Files(g[list[i]]), n, Files(before));
    }
  }

  /** `out` is what including `list` needs: everything it leads to, in order. */
  ghost predicate Needs<F>(g: Graph<F>, list: seq<F>, out: seq<F>) {
    Ordered(g, out) && Files(out) == Closure(g, Files(list))
  }

  lemma NeedsIsAcyclic<F>(g: Graph<F>, list: seq<F>, out: seq<F>)
    requires Needs(g, list, out)
    ensures !MeetsCycle(g, list)
  {
    forall f <- Closure(g, Files(list)) ensures !Cyclic(g, f) {
      assert f in Files(out);
      var i :| 0 <= i < |out| && out[i] == f;
      OrderedIsAcyclic(g, out, i);
    }
  }

  /** What has been put in order starting from a list, and within its closure, is its closure. */
  lemma WalkedAll<F>(g: Graph<F>, list: seq<F>, out: seq<F>)
    requires Closed(g) && AllIn(list, g)
    requires Ordered(Part(g, Closure(g, Files(list))), out) && forall h <- list :: h in out
    ensures Needs(g, list, out)
  {
    var part := Part(g, Closure(g, Files(list)));
    OrderedInPart(g, Closure(g, Files(list)), out);
    OrderedHoldsClosure(g, out, Files(list));
    OrderedIsClosed(part, out);
  }

  // ---------------------------------------------------------------- chains of inclusions

  /** Each file of the chain includes the next. */
  ghost predicate Chain<F>(g: Graph<F>, chain: seq<F>) {
    && (forall f <- chain :: f in g)
    && (forall i, j :: 0 <= i < j < |chain| ==> chain[i] != chain[j])
    && (forall i :: 0 < i < |chain| ==> chain[i] in g[chain[i - 1]])
  }

  lemma {:induction false} ChainReaches<F>(g: Graph<F>, chain: seq<F>, i: nat, j: nat)
    requires Chain(g, chain) && i < j < |chain|
    ensures Reaches(g, Files(g[chain[i]]), chain[j])
    decreases j
  {
    if j == i + 1 {
      RootReached(g, Files(g[chain[i]]), chain[j]);
    } else {
      ChainReaches(g, chain, i, j - 1);
      ReachesNext(g, Files(g[chain[i]]), chain[j - 1], chain[j]);
    }
  }

  /** A chain whose last file includes one of its files is a cycle. */
  lemma ChainCloses<F>(g: Graph<F>, chain: seq<F>, i: nat)
    requires Chain(g, chain) && i < |chain| && chain[i] in g[chain[|chain| - 1]]
    ensures Cyclic(g, chain[i])
  {
    if i < |chain| - 1 {
      ChainReaches(g, chain, i, |chain| - 1);
      ReachesNext(g, Files(g[chain[i]]), chain[|chain| - 1], chain[i]);
    } else {
      RootReached(g, Files(g[chain[i]]), chain[i]);
    }
  }
}
