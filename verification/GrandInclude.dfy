/**
 Splitting headers by how many C files use them: the precompiled header takes the ones used often
 enough, each C file's own include file the rest. On values.
 */
module GrandInclude {
  import opened IncludeGraph

  /** The files of the list that are in `chosen`, in order. */
  function Select<F(==)>(list: seq<F>, chosen: set<F>): seq<F> {
    if list == [] then []
    else Select(list[..|list| - 1], chosen) + (if list[|list| - 1] in chosen then [list[|list| - 1]] else [])
  }

  lemma {:induction false} SelectStep<F>(list: seq<F>, i: nat, chosen: set<F>)
    requires i < |list|
    ensures Select(list[..i + 1], chosen) == Select(list[..i], chosen) + (if list[i] in chosen then [list[i]] else [])
  {
    assert list[..i + 1][..i] == list[..i];
  }

  lemma {:induction false} SelectHas<F>(list: seq<F>, chosen: set<F>)
    ensures forall f :: f in Select(list, chosen) <==> f in list && f in chosen
  {
    if list != [] {
      var init, x := list[..|list| - 1], list[|list| - 1];
      SelectHas(init, chosen);
      assert list == init + [x];
    }
  }

  lemma {:induction false} SelectAll<F>(list: seq<F>, chosen: set<F>)
    requires Files(list) <= chosen
    ensures Select(list, chosen) == list
  {
    if list != [] {
      var init, x := list[..|list| - 1], list[|list| - 1];
      assert list == init + [x] && x in Files(list);
      assert Files(init) <= Files(list);
      SelectAll(init, chosen);
    }
  }

  lemma OrderedPrefix<F>(g: Graph<F>, list: seq<F>, n: nat)
    requires Ordered(g, list) && n <= |list|
    ensures Ordered(g, list[..n])
  {
    forall i | 0 <= i < n ensures AfterIncludes(g, list[..n], i) {
      assert AfterIncludes(g, list, i) && list[..n][..i] == list[..i];
    }
  }

  /**
   After the files of `base`, the chosen files of an ordered list come in order, provided whatever they
   include is itself chosen or in `base`.
   */
  lemma {:induction false} SelectIsOrdered<F>(g: Graph<F>, base: seq<F>, list: seq<F>, chosen: set<F>)
    requires Ordered(g, base) && Ordered(g, list) && (forall f <- base :: f !in list || f !in chosen)
    requires forall f <- list :: f in chosen && f in g ==> forall h <- g[f] :: h in chosen || h in base
    ensures Ordered(g, base + Select(list, chosen))
  {
    if list == [] {
      assert base + Select(list, chosen) == base;
    } else {
      var n := |list| - 1;
      var init, x := list[..n], list[n];
      OrderedPrefix(g, list, n);
      assert list == init + [x];
      SelectIsOrdered(g, base, init, chosen);
      if x in chosen {
        SelectHas(init, chosen);
        assert AfterIncludes(g, list, n);
        var r := base + Select(init, chosen);
        forall h <- g[x] ensures h in r {
          assert h in base || h in Select(init, chosen);
        }
        assert x !in r;
        OrderedAppend(g, r, x);
        assert base + Select(list, chosen) == r + [x];
      } else {
        assert Select(list, chosen) == Select(init, chosen);
      }
    }
  }

  /** A set of files that contains whatever its files include. */
  ghost predicate ClosedSet<F>(g: Graph<F>, fs: set<F>) {
    forall f <- fs :: f in g && forall h <- g[f] :: h in fs
  }

  /**
   If the frequent files are closed under inclusion, the precompiled header followed by what is left of a
   file's own list has everything in that list, once and in order.
   */
  lemma SplitKeepsOrder<F>(g: Graph<F>, grand: seq<F>, list: seq<F>, frequent: set<F>)
    requires Ordered(g, grand) && Ordered(g, list) && Files(list) <= Files(grand) && ClosedSet(g, frequent)
    ensures Ordered(g, Select(grand, frequent) + Select(list, Files(list) - frequent))
    ensures Files(list) <= Files(Select(grand, frequent) + Select(list, Files(list) - frequent))
  {
    var pre, rest := Select(grand, frequent), Files(list) - frequent;
    SelectHas(grand, frequent);
    SelectHas(list, rest);
    SelectIsOrdered(g, [], grand, frequent);
    assert [] + pre == pre;
    OrderedIsClosed(g, list);
    forall f <- list, h | f in rest && h in g[f] ensures h in rest || h in pre {
      assert h in Files(list) && h in Files(grand);
    }
    SelectIsOrdered(g, pre, list, rest);
    forall f <- Files(list) ensures f in pre + Select(list, rest) {
      assert f in pre || f in Select(list, rest);
    }
  }

  // ---------------------------------------------------------------- use counts

  /** How many of the first `n` lists that may use the precompiled header name `h`. */
  ghost function UseCount<F>(lists: seq<seq<F>>, use: seq<bool>, n: nat, h: F): nat
    requires n <= |lists| == |use|
  {
    if n == 0 then 0
    else UseCount(lists, use, n - 1, h) + if use[n - 1] && h in lists[n - 1] then 1 else 0
  }

  /** A header is used no more often than anything it includes. */
  lemma {:induction false} IncludedIsUsedMore<F>(g: Graph<F>, lists: seq<seq<F>>, use: seq<bool>, n: nat, f: F, h: F)
    requires n <= |lists| == |use| && (forall k :: 0 <= k < |lists| ==> Ordered(g, lists[k])) && f in g && h in g[f]
    ensures UseCount(lists, use, n, f) <= UseCount(lists, use, n, h)
  {
    if n > 0 {
      IncludedIsUsedMore(g, lists, use, n - 1, f, h);
      OrderedIsClosed(g, lists[n - 1]);
    }
  }

  /** The headers used at least `threshold` times. */
  ghost function Frequent<F>(g: Graph<F>, lists: seq<seq<F>>, use: seq<bool>, threshold: int): set<F>
    requires |lists| == |use|
  {
    set h <- g.Keys | UseCount(lists, use, |lists|, h) >= threshold
  }

  lemma FrequentIsClosed<F>(g: Graph<F>, lists: seq<seq<F>>, use: seq<bool>, threshold: int)
    requires Closed(g) && |lists| == |use| && forall k :: 0 <= k < |lists| ==> Ordered(g, lists[k])
    ensures ClosedSet(g, Frequent(g, lists, use, threshold))
  {
    forall f <- Frequent(g, lists, use, threshold), h <- g[f] ensures h in Frequent(g, lists, use, threshold) {
      IncludedIsUsedMore(g, lists, use, |lists|, f, h);
      assert AllIn(g[f], g);
    }
  }

  // ---------------------------------------------------------------- the union of ordered lists

  /** The files of the lists that may use the precompiled header. */
  ghost function Union<F>(lists: seq<seq<F>>, use: seq<bool>): set<F>
    requires |lists| == |use|
  {
    set k, f | 0 <= k < |lists| && use[k] && f in lists[k] :: f
  }

  /** Files that stand in ordered lists are closed under inclusion and without cycles. */
  lemma UnionIsAcyclic<F>(g: Graph<F>, lists: seq<seq<F>>, use: seq<bool>)
    requires |lists| == |use| && forall k :: 0 <= k < |lists| ==> Ordered(g, lists[k])
    ensures Closed(Part(g, Union(lists, use))) && Part(g, Union(lists, use)).Keys == Union(lists, use)
    ensures forall f <- Union(lists, use) :: !Cyclic(Part(g, Union(lists, use)), f)
  {
    var all := Union(lists, use);
    forall f <- all ensures f in g && AllIn(g[f], Part(g, all)) && !Cyclic(Part(g, all), f) {
      var k :| 0 <= k < |lists| && use[k] && f in lists[k];
      OrderedIsClosed(g, lists[k]);
      forall h <- g[f] ensures h in Part(g, all) {
        assert h in lists[k] && h in g;
      }
      var i :| 0 <= i < |lists[k]| && lists[k][i] == f;
      OrderedIsAcyclic(g, lists[k], i);
      if Cyclic(Part(g, all), f) {
        PartCyclic(g, all, f);
      }
    }
  }
}
