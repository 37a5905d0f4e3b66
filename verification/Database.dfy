/**
 The database of include lists: computes every C file's headers, counts how often each header is
 used, and writes a precompiled header of the ones used often and an include file of the rest.
 */
module Databases {
  import opened IncludeGraph
  import opened GrandInclude
  import opened FileLists

  /** Every list is what one of the C files needs, and `use` says whether that file takes the precompiled header. */
  ghost predicate Individual(g: Graph<FileList>, outer: seq<FileList>, lists: seq<seq<FileList>>) {
    |lists| == |outer| && forall k :: 0 <= k < |outer| ==> outer[k] in g && Needs(g, g[outer[k]], lists[k])
  }

  /** The headers of those of the first `n` lists that take the precompiled header are on the grand list. */
  ghost predicate HasAll(lists: seq<seq<FileList>>, use: seq<bool>, n: nat, grand: seq<FileList>)
    requires n <= |lists| == |use|
  {
    forall k :: 0 <= k < n && use[k] ==> Files(lists[k]) <= Files(grand)
  }

  /** The grand list has the headers of all files that take the precompiled header, in order, and no others. */
  ghost predicate Grand(g: Graph<FileList>, lists: seq<seq<FileList>>, use: seq<bool>, grand: seq<FileList>) {
    |use| == |lists| && Ordered(g, grand) && Files(grand) == Union(lists, use)
  }

  /** A list in order within the part of the graph made up of those headers, that has them all, is the grand list. */
  lemma IsGrand(g: Graph<FileList>, lists: seq<seq<FileList>>, use: seq<bool>, grand: seq<FileList>)
    requires |use| == |lists| && HasAll(lists, use, |lists|, grand) && Ordered(Part(g, Union(lists, use)), grand)
    ensures Grand(g, lists, use, grand)
  {
    OrderedInPart(g, Union(lists, use), grand);
    OrderedIsClosed(Part(g, Union(lists, use)), grand);
    forall h <- Union(lists, use) ensures h in Files(grand) {
      var k :| 0 <= k < |lists| && use[k] && h in lists[k];
      assert h in Files(lists[k]);
    }
  }

  lemma GrandGrows(lists: seq<seq<FileList>>, use: seq<bool>, n: nat, grand: seq<FileList>, more: seq<FileList>)
    requires n < |lists| == |use| && HasAll(lists, use, n, grand) && grand <= more
    requires use[n] ==> Files(lists[n]) <= Files(more)
    ensures HasAll(lists, use, n + 1, more)
  {
  }

  lemma ElementsIn(g: Graph<FileList>, f: FileList)
    requires Closed(g) && f in g
    ensures AllIn(g[f], g)
  {
  }

  lemma GrandIsOrdered(g: Graph<FileList>, lists: seq<seq<FileList>>, use: seq<bool>, grand: seq<FileList>)
    requires Grand(g, lists, use, grand)
    ensures Ordered(g, grand)
  {
  }

  class Database {
    const threshold: int
    const haveGrandInclude: bool
    const outerFiles: FileList
    const indivIncludes: FileList
    const grandInclude: FileList
    var nOuterFiles: nat

    constructor (threshold: int, haveGrandInclude: bool)
      ensures this.threshold == threshold && this.haveGrandInclude == haveGrandInclude && nOuterFiles == 0
      ensures fresh(outerFiles) && fresh(indivIncludes) && fresh(grandInclude)
      ensures outerFiles != indivIncludes && outerFiles != grandInclude && indivIncludes != grandInclude
      ensures outerFiles.elements == indivIncludes.elements == grandInclude.elements == []
    {
      this.threshold, this.haveGrandInclude, nOuterFiles := threshold, haveGrandInclude, 0;
      outerFiles := new FileList("outerFiles", haveGrandInclude);
      indivIncludes := new FileList("IndivIncludes", haveGrandInclude);
      grandInclude := new FileList("grandInclude", haveGrandInclude);
    }

    /** The graph shows the files; the database's own lists are not among them. */
    ghost predicate Sees(g: Graph<FileList>)
      reads g.Keys`elements
    {
      && Drawn(g) && Closed(g)
      && outerFiles !in g && indivIncludes !in g && grandInclude !in g
      && outerFiles != indivIncludes && outerFiles != grandInclude && indivIncludes != grandInclude
    }

    /** The individual include lists as they now are. */
    ghost predicate Holds(g: Graph<FileList>, lists: seq<seq<FileList>>, use: seq<bool>)
      reads indivIncludes`elements, indivIncludes.elements
    {
      var made := indivIncludes.elements;
      && |made| == |lists| == |use|
      && forall k :: 0 <= k < |made| ==>
           && made[k] !in g && made[k] != outerFiles && made[k] != indivIncludes && made[k] != grandInclude
           && made[k].elements == lists[k] && made[k].useGrandInclude == use[k]
    }

    /** The headers each C file needs; ends the program exactly when some of them include each other in a cycle. */
    method ComputeIndividual(ghost g: Graph<FileList>)
      returns (fatal: bool, ghost lists: seq<seq<FileList>>, ghost use: seq<bool>)
      requires Sees(g) && Untouched(g) && AllIn(outerFiles.elements, g) && indivIncludes.elements == []
      modifies this`nOuterFiles, indivIncludes`elements
      modifies g.Keys`beenHere, g.Keys`mayBeCycle, g.Keys`isCycle, g.Keys`platformDependentInclude
      ensures fatal <==> exists c <- outerFiles.elements :: MeetsCycle(g, c.elements)
      ensures !fatal ==> Untouched(g) && Holds(g, lists, use) && Individual(g, outerFiles.elements, lists)
      ensures !fatal ==> |use| == |outerFiles.elements| && forall k :: 0 <= k < |use| ==> use[k] == outerFiles.elements[k].useGrandInclude
      ensures !fatal ==> nOuterFiles == old(nOuterFiles) + |outerFiles.elements|
    {
      hide Needs, MeetsCycle, Closed;
      lists, use := [], [];
      var outer := outerFiles.elements;
      for i := 0 to |outer|
        invariant Untouched(g) && Holds(g, lists, use) && Individual(g, outer[..i], lists)
        invariant forall k :: 0 <= k < i ==> fresh(indivIncludes.elements[k])
        invariant |use| == i && forall k :: 0 <= k < i ==> use[k] == outer[k].useGrandInclude
        invariant nOuterFiles == old(nOuterFiles) + i
      {
        var c := outer[i];
        ElementsIn(g, c);
        var s;
        s, fatal := c.DoCFile(g);
        if fatal {
          return;
        }
        indivIncludes.elements := indivIncludes.elements + [s];
        lists, use := lists + [s.elements], use + [s.useGrandInclude];
        nOuterFiles := nOuterFiles + 1;
      }
      assert outer[..|outer|] == outer;
      forall k | 0 <= k < |outer| ensures !MeetsCycle(g, g[outer[k]]) {
        NeedsIsAcyclic(g, g[outer[k]], lists[k]);
      }
      fatal := false;
    }

    method AddToGrand(indivInclude: FileList, ghost part: Graph<FileList>)
      requires Drawn(part) && Walking(part, grandInclude.elements, []) && grandInclude !in part && grandInclude != indivInclude
      requires AllIn(indivInclude.elements, part) && forall f <- part :: !Cyclic(part, f)
      modifies grandInclude`elements
      modifies part.Keys`beenHere, part.Keys`mayBeCycle, part.Keys`isCycle, part.Keys`platformDependentInclude
      ensures Walking(part, grandInclude.elements, []) && old(grandInclude.elements) <= grandInclude.elements
      ensures Files(indivInclude.elements) <= Files(grandInclude.elements)
    {
      var done, fatal := indivInclude.DoFiles(grandInclude, part, []);
      assert !fatal;
    }

    /** Counts one use of every header of the list. */
    method CountHeaders(list: FileList, ghost g: Graph<FileList>)
      requires list !in g && Ordered(g, list.elements)
      modifies g.Keys`count
      ensures forall h <- g :: h.count == old(h.count) + if h in list.elements then 1 else 0
    {
      for i := 0 to |list.elements|
        invariant forall h <- g :: h.count == old(h.count) + if h in list.elements[..i] then 1 else 0
      {
        assert AfterIncludes(g, list.elements, i);
        list.elements[i].IncrementCount();
        assert list.elements[..i + 1] == list.elements[..i] + [list.elements[i]];
      }
    }

    /** Puts the headers of one file on the grand list and counts their uses, if it takes the precompiled header. */
    method AddOne(i: nat, ghost g: Graph<FileList>, ghost part: Graph<FileList>, ghost lists: seq<seq<FileList>>, ghost use: seq<bool>)
      requires Holds(g, lists, use) && i < |lists| && Ordered(g, lists[i]) && grandInclude != indivIncludes && indivIncludes !in g
      requires Drawn(part) && Walking(part, grandInclude.elements, []) && part.Keys <= g.Keys && grandInclude !in g
      requires (use[i] ==> AllIn(lists[i], part)) && forall f <- part :: !Cyclic(part, f)
      modifies grandInclude`elements, g.Keys`count
      modifies g.Keys`beenHere, g.Keys`mayBeCycle, g.Keys`isCycle, g.Keys`platformDependentInclude
      ensures Walking(part, grandInclude.elements, []) && old(grandInclude.elements) <= grandInclude.elements
      ensures use[i] ==> Files(lists[i]) <= Files(grandInclude.elements)
      ensures forall h <- g :: h.count == old(h.count) + if use[i] && h in lists[i] then 1 else 0
    {
      hide Walking, Ordered, Files, Cyclic;
      var indivInclude := indivIncludes.elements[i];
      if indivInclude.useGrandInclude {
        AddToGrand(indivInclude, part);
        CountHeaders(indivInclude, g);
      }
    }

    /** Puts the headers of every file that takes the precompiled header on the grand list, and counts their uses. */
    method ComputeGrand(ghost g: Graph<FileList>, ghost lists: seq<seq<FileList>>, ghost use: seq<bool>)
      requires Sees(g) && Untouched(g) && Holds(g, lists, use) && grandInclude.elements == []
      requires forall k :: 0 <= k < |lists| ==> Ordered(g, lists[k])
      modifies grandInclude`elements, g.Keys`count
      modifies g.Keys`beenHere, g.Keys`mayBeCycle, g.Keys`isCycle, g.Keys`platformDependentInclude
      ensures Grand(g, lists, use, grandInclude.elements)
      ensures forall h <- g :: h.count == old(h.count) + UseCount(lists, use, |lists|, h)
    {
      ghost var part := Part(g, Union(lists, use));
      UnionIsAcyclic(g, lists, use);
      assert forall k :: 0 <= k < |lists| && use[k] ==> AllIn(lists[k], part);
      hide Ordered, Cyclic, Part, Union, Closed;
      for i := 0 to |indivIncludes.elements|
        modifies grandInclude`elements, g.Keys`count
        modifies g.Keys`beenHere, g.Keys`mayBeCycle, g.Keys`isCycle, g.Keys`platformDependentInclude
        invariant Walking(part, grandInclude.elements, [])
        invariant HasAll(lists, use, i, grandInclude.elements)
        invariant forall h <- g :: h.count == old(h.count) + UseCount(lists, use, i, h)
      {
        ghost var grand := grandInclude.elements;
        AddOne(i, g, part, lists, use);
        GrandGrows(lists, use, i, grand, grandInclude.elements);
      }
      IsGrand(g, lists, use, grandInclude.elements);
    }

    /** What is known once everything has been computed. */
    ghost predicate Computed(g: Graph<FileList>, lists: seq<seq<FileList>>, use: seq<bool>)
      reads g.Keys`elements, g.Keys`count, outerFiles, indivIncludes`elements, indivIncludes.elements, grandInclude
    {
      && Sees(g) && Holds(g, lists, use) && Individual(g, outerFiles.elements, lists)
      && (haveGrandInclude ==>
            Grand(g, lists, use, grandInclude.elements) && forall h <- g :: h.count == UseCount(lists, use, |lists|, h))
    }

    /** Builds both the individual and the grand results. */
    method Compute(ghost g: Graph<FileList>) returns (fatal: bool, ghost lists: seq<seq<FileList>>, ghost use: seq<bool>)
      requires Sees(g) && Untouched(g) && AllIn(outerFiles.elements, g)
      requires indivIncludes.elements == [] && grandInclude.elements == [] && forall h <- g :: h.count == 0
      modifies this`nOuterFiles, indivIncludes`elements, grandInclude`elements, g.Keys`count
      modifies g.Keys`beenHere, g.Keys`mayBeCycle, g.Keys`isCycle, g.Keys`platformDependentInclude
      ensures fatal <==> exists c <- outerFiles.elements :: MeetsCycle(g, c.elements)
      ensures !fatal ==> Computed(g, lists, use) && nOuterFiles == old(nOuterFiles) + |outerFiles.elements|
      ensures !fatal ==> |use| == |outerFiles.elements| && forall k :: 0 <= k < |use| ==> use[k] == outerFiles.elements[k].useGrandInclude
    {
      fatal, lists, use := ComputeIndividual(g);
      if fatal || !haveGrandInclude {
        return;
      }
      ComputeGrand(g, lists, use);
    }

    predicate HfileIsInGrandInclude(hfile: FileList, cfile: FileList)
      reads hfile`count, cfile`useGrandInclude
    {
      hfile.count >= threshold && cfile.useGrandInclude
    }

    /** The headers named in the precompiled header. */
    method WriteGrandInclude(ghost frequent: set<FileList>) returns (lines: seq<FileList>)
      requires forall h <- grandInclude.elements :: h in frequent <==> h.count >= threshold
      ensures lines == if haveGrandInclude then Select(grandInclude.elements, frequent) else []
    {
      lines := [];
      if haveGrandInclude {
        for i := 0 to |grandInclude.elements|
          invariant lines == Select(grandInclude.elements[..i], frequent)
        {
          SelectStep(grandInclude.elements, i, frequent);
          if grandInclude.elements[i].count >= threshold {
            lines := lines + [grandInclude.elements[i]];
          }
        }
        assert grandInclude.elements[..|grandInclude.elements|] == grandInclude.elements;
      }
    }

    /** The headers named in the include file of one C file. */
    method PutInclFile(cfile: FileList, ghost rest: set<FileList>) returns (lines: seq<FileList>)
      requires forall h <- cfile.elements :: h in rest <==> !HfileIsInGrandInclude(h, cfile)
      ensures lines == Select(cfile.elements, rest)
    {
      lines := [];
      for i := 0 to |cfile.elements|
        invariant lines == Select(cfile.elements[..i], rest)
      {
        SelectStep(cfile.elements, i, rest);
        if !HfileIsInGrandInclude(cfile.elements[i], cfile) {
          lines := lines + [cfile.elements[i]];
        }
      }
      assert cfile.elements[..|cfile.elements|] == cfile.elements;
    }

    method WriteIndividualIncludes(ghost g: Graph<FileList>, ghost lists: seq<seq<FileList>>, ghost use: seq<bool>,
                                   ghost frequent: set<FileList>) returns (individual: seq<seq<FileList>>)
      requires Holds(g, lists, use)
      requires forall k :: 0 <= k < |lists| && use[k] ==> forall h <- lists[k] :: h in frequent <==> h.count >= threshold
      ensures |individual| == |lists|
      ensures forall k :: 0 <= k < |lists| ==>
                individual[k] == if use[k] then Select(lists[k], Files(lists[k]) - frequent) else lists[k]
    {
      individual := [];
      for i := 0 to |indivIncludes.elements|
        invariant |individual| == i
        invariant forall k :: 0 <= k < i ==>
                    individual[k] == if use[k] then Select(lists[k], Files(lists[k]) - frequent) else lists[k]
      {
        var lines := PutInclFile(indivIncludes.elements[i], if use[i] then Files(lists[i]) - frequent else Files(lists[i]));
        if !use[i] {
          SelectAll(lists[i], Files(lists[i]));
        }
        individual := individual + [lines];
      }
    }

    ghost function Frequently(list: seq<FileList>): set<FileList>
      reads list
    {
      set h | h in list && h.count >= threshold
    }

    /** How the headers are split: the frequent ones of the grand list, and of every file's own list the others. */
    ghost predicate Split(g: Graph<FileList>, lists: seq<seq<FileList>>, use: seq<bool>,
                          precompiled: seq<FileList>, individual: seq<seq<FileList>>)
      requires |lists| == |use|
      reads grandInclude
    {
      var frequent := Frequent(g, lists, use, threshold);
      && precompiled == (if haveGrandInclude then Select(grandInclude.elements, frequent) else [])
      && |individual| == |lists|
      && forall k :: 0 <= k < |lists| ==>
           individual[k] == if use[k] then Select(lists[k], Files(lists[k]) - frequent) else lists[k]
    }

    /** Of a computed list, the frequent headers are those whose count reaches the threshold. */
    lemma FrequentByCount(g: Graph<FileList>, lists: seq<seq<FileList>>, use: seq<bool>, list: seq<FileList>)
      requires Computed(g, lists, use) && haveGrandInclude && Ordered(g, list)
      ensures forall h <- list :: h in Frequent(g, lists, use, threshold) <==> h.count >= threshold
    {
      OrderedIsClosed(g, list);
    }

    lemma SplitInOrder(g: Graph<FileList>, lists: seq<seq<FileList>>, use: seq<bool>,
                       precompiled: seq<FileList>, individual: seq<seq<FileList>>, k: nat)
      requires Computed(g, lists, use) && Split(g, lists, use, precompiled, individual)
      requires k < |lists| && use[k] && haveGrandInclude
      ensures Ordered(g, precompiled + individual[k])
      ensures Closure(g, Files(g[outerFiles.elements[k]])) <= Files(precompiled + individual[k])
    {
      FrequentIsClosed(g, lists, use, threshold);
      SplitKeepsOrder(g, grandInclude.elements, lists[k], Frequent(g, lists, use, threshold));
    }

    lemma PrecompiledHas(g: Graph<FileList>, lists: seq<seq<FileList>>, use: seq<bool>,
                         precompiled: seq<FileList>, individual: seq<seq<FileList>>)
      requires Computed(g, lists, use) && Split(g, lists, use, precompiled, individual)
      ensures forall h: FileList :: h in precompiled <==>
                haveGrandInclude && (exists k :: 0 <= k < |lists| && use[k] && h in lists[k]) && h.count >= threshold
    {
      if haveGrandInclude {
        var grand := grandInclude.elements;
        SelectHas(grand, Frequent(g, lists, use, threshold));
        FrequentByCount(g, lists, use, grand);
        forall h: FileList ensures h in grand <==> exists k :: 0 <= k < |lists| && use[k] && h in lists[k] {
          assert h in grand <==> h in Files(grand);
        }
      }
    }

    lemma IndividualHas(g: Graph<FileList>, lists: seq<seq<FileList>>, use: seq<bool>,
                        precompiled: seq<FileList>, individual: seq<seq<FileList>>, k: nat)
      requires Computed(g, lists, use) && Split(g, lists, use, precompiled, individual)
      requires k < |lists| && (use[k] ==> haveGrandInclude)
      ensures forall h: FileList :: h in individual[k] <==> h in lists[k] && !(use[k] && h.count >= threshold)
    {
      if use[k] {
        SelectHas(lists[k], Files(lists[k]) - Frequent(g, lists, use, threshold));
        FrequentByCount(g, lists, use, lists[k]);
      }
    }

    /**
     Writes the precompiled header and every C file's own include file: a header that some C file taking the
     precompiled header needs, and that is used often enough, goes there, any other to the files of those who
     need it. A C file that takes the precompiled header then sees every header it needs, no header twice, and
     each after its own includes; one that refuses it finds exactly what it needs in its own include file.
     */
    method Put(ghost g: Graph<FileList>, ghost lists: seq<seq<FileList>>, ghost use: seq<bool>)
      returns (precompiled: seq<FileList>, individual: seq<seq<FileList>>)
      requires Computed(g, lists, use) && ((exists k :: 0 <= k < |use| && use[k]) ==> haveGrandInclude)
      ensures |individual| == |lists|
      ensures forall h: FileList :: h in precompiled <==>
                haveGrandInclude && (exists k :: 0 <= k < |lists| && use[k] && h in lists[k]) && h.count >= threshold
      ensures forall k :: 0 <= k < |lists| ==>
                forall h: FileList :: h in individual[k] <==> h in lists[k] && !(use[k] && h.count >= threshold)
      ensures forall k :: 0 <= k < |lists| && use[k] ==>
                && Ordered(g, precompiled + individual[k])
                && Closure(g, Files(g[outerFiles.elements[k]])) <= Files(precompiled + individual[k])
      ensures forall k :: 0 <= k < |lists| && !use[k] ==> Needs(g, g[outerFiles.elements[k]], individual[k])
    {
      hide Ordered, Closure, Drawn, Closed, Frequent, Grand;
      ghost var frequent := Frequent(g, lists, use, threshold);
      if haveGrandInclude {
        GrandIsOrdered(g, lists, use, grandInclude.elements);
        FrequentByCount(g, lists, use, grandInclude.elements);
      }
      forall k | 0 <= k < |lists| && use[k] ensures forall h <- lists[k] :: h in frequent <==> h.count >= threshold {
        FrequentByCount(g, lists, use, lists[k]);
      }
      individual := WriteIndividualIncludes(g, lists, use, frequent);
      precompiled := WriteGrandInclude(if haveGrandInclude then frequent else Frequently(grandInclude.elements));
      assert Split(g, lists, use, precompiled, individual);
      PrecompiledHas(g, lists, use, precompiled, individual);
      forall k | 0 <= k < |lists|
        ensures forall h: FileList :: h in individual[k] <==> h in lists[k] && !(use[k] && h.count >= threshold)
      {
        IndividualHas(g, lists, use, precompiled, individual, k);
      }
      forall k | 0 <= k < |lists| && use[k]
        ensures Ordered(g, precompiled + individual[k])
        ensures Closure(g, Files(g[outerFiles.elements[k]])) <= Files(precompiled + individual[k])
      {
        SplitInOrder(g, lists, use, precompiled, individual, k);
      }
    }
  }
}
