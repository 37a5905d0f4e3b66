/**
 The depth-first walk over include lists that puts headers in an order in which each comes
 after the headers it includes. An object is both a file and the list of the files it includes.
 The source ends the program when it meets a cycle; here `fatal` is returned instead.
 */
module FileLists {
  import opened IncludeGraph
  import opened Sets
  import opened Wrappers

  /** The traced files lead, among those being walked, only to traced files other than `s`. */
  ghost predicate Passed(g: Graph<FileList>, chain: seq<FileList>, traced: set<FileList>, s: FileList, f: FileList)
    requires f in g
  {
    forall q <- g[f] :: q in chain ==> q != s && q in traced
  }

  lemma PassedStay(g: Graph<FileList>, chain: seq<FileList>, traced: set<FileList>, more: set<FileList>, s: FileList)
    requires traced <= more
    ensures forall f <- g :: Passed(g, chain, traced, s, f) ==> Passed(g, chain, more, s, f)
  {
  }

  lemma PassedNow(g: Graph<FileList>, chain: seq<FileList>, traced: set<FileList>, s: FileList, f: FileList, list: seq<FileList>)
    requires f in g && list == g[f]
    requires forall k :: 0 <= k < |list| && list[k] in chain ==> list[k] != s && list[k] in traced
    ensures Passed(g, chain, traced, s, f)
  {
  }

  ghost predicate Untouched(g: Graph<FileList>)
    reads g.Keys`beenHere, g.Keys`mayBeCycle, g.Keys`isCycle
  {
    forall f <- g :: !f.beenHere && !f.mayBeCycle && !f.isCycle
  }

  ghost function Traced(g: Graph<FileList>): set<FileList>
    reads g.Keys`isCycle
  {
    set f <- g | f.isCycle
  }

  /** The graph shows the lists as they now are. */
  ghost predicate Drawn(g: Graph<FileList>)
    reads g.Keys`elements
  {
    forall f <- g :: f.elements == g[f]
  }

  /** In the middle of a walk: `out` has been put in order, the files of `chain` have been entered. */
  ghost predicate Walking(g: Graph<FileList>, out: seq<FileList>, chain: seq<FileList>)
    reads g.Keys`beenHere, g.Keys`mayBeCycle, g.Keys`isCycle
  {
    && WalkOk(g, out, chain)
    && forall f <- g :: (f.beenHere <==> f in out || f in chain) && (f.mayBeCycle <==> f in chain) && !f.isCycle
  }

  ghost predicate WalkOk(g: Graph<FileList>, out: seq<FileList>, chain: seq<FileList>) {
    && Closed(g) && Ordered(g, out) && Chain(g, chain)
    && forall f <- chain :: f !in out
  }

  /** A new file is entered from the last one. */
  lemma Enters(g: Graph<FileList>, out: seq<FileList>, chain: seq<FileList>, f: FileList)
    requires WalkOk(g, out, chain) && f in Left(g, out, chain) && (chain != [] ==> f in g[chain[|chain| - 1]])
    ensures WalkOk(g, out, chain + [f]) && |Left(g, out, chain + [f])| < |Left(g, out, chain)|
  {
    SubsetSize(Left(g, out, chain + [f]), Left(g, out, chain));
    assert f !in Left(g, out, chain + [f]);
  }

  /** A file all of whose includes have been put in order takes its place after them. */
  lemma Leaves(g: Graph<FileList>, out: seq<FileList>, chain: seq<FileList>, f: FileList)
    requires WalkOk(g, out, chain + [f]) && forall h <- g[f] :: h in out
    ensures f !in out && f !in chain && WalkOk(g, out + [f], chain)
  {
    var longer := chain + [f];
    assert longer[|chain|] == f && forall i :: 0 <= i < |chain| ==> longer[i] == chain[i];
    OrderedAppend(g, out, f);
  }

  /** The files not met yet. */
  ghost function Left(g: Graph<FileList>, out: seq<FileList>, chain: seq<FileList>): set<FileList> {
    set f <- g | f !in out && f !in chain
  }

  lemma LeftShrinks(g: Graph<FileList>, out: seq<FileList>, more: seq<FileList>, chain: seq<FileList>)
    requires out <= more
    ensures |Left(g, more, chain)| <= |Left(g, out, chain)|
  {
    SubsetSize(Left(g, more, chain), Left(g, out, chain));
  }

  /** If every traced file is passed, tracing from one file of a chain has traced all after it. */
  lemma {:induction false} TraceReachesAll(g: Graph<FileList>, chain: seq<FileList>, j: nat, k: nat, traced: set<FileList>)
    requires Chain(g, chain) && j <= k < |chain| && chain[j] in traced
    requires forall f <- traced :: f in g && Passed(g, chain, traced, chain[j], f)
    ensures chain[k] in traced
    decreases k
  {
    if j < k {
      TraceReachesAll(g, chain, j, k - 1, traced);
      assert Passed(g, chain, traced, chain[j], chain[k - 1]);
    }
  }

  /** So a trace that starts where the chain closes cannot have passed every file it has traced. */
  lemma TraceComesBack(g: Graph<FileList>, chain: seq<FileList>, j: nat, traced: set<FileList>)
    requires Chain(g, chain) && j < |chain| && traced <= g.Keys && chain[j] in g[chain[|chain| - 1]]
    ensures chain[j] in traced ==> exists f <- traced :: !Passed(g, chain, traced, chain[j], f)
  {
    if chain[j] in traced && forall f <- traced :: Passed(g, chain, traced, chain[j], f) {
      TraceReachesAll(g, chain, j, |chain| - 1, traced);
      assert false;
    }
  }

  /** The platform dependent includes that the files are still known to be the source of. */
  ghost function Sources(g: Graph<FileList>): (r: map<FileList, Option<string>>)
    reads g.Keys`platformDependentInclude
    ensures r.Keys == g.Keys
  {
    map f <- g :: f.platformDependentInclude
  }

  /** One of the files includes `h`. */
  ghost predicate IncludedBy(g: Graph<FileList>, files: seq<FileList>, h: FileList) {
    exists f <- files :: f in g && h in g[f]
  }

  /** The sources once those in the list and those that the walked files include have been reported. */
  ghost function Reported(g: Graph<FileList>, before: map<FileList, Option<string>>, list: seq<FileList>, walked: seq<FileList>)
    : (r: map<FileList, Option<string>>)
    requires g.Keys <= before.Keys
    ensures r.Keys == g.Keys
  {
    map h <- g :: if h in list || IncludedBy(g, walked, h) then None else before[h]
  }

  lemma NothingReported(g: Graph<FileList>, before: map<FileList, Option<string>>)
    requires g.Keys == before.Keys
    ensures Reported(g, before, [], []) == before
  {
  }

  /** One more header is reported, and then what the walk from it reports. */
  lemma ReportedStep(g: Graph<FileList>, before: map<FileList, Option<string>>, list: seq<FileList>, walked: seq<FileList>,
                     h: FileList, more: seq<FileList>)
    requires g.Keys <= before.Keys && h in g
    ensures Reported(g, Reported(g, before, list, walked)[h := None], [], more) == Reported(g, before, list + [h], walked + more)
  {
    forall x <- g ensures IncludedBy(g, walked + more, x) <==> IncludedBy(g, walked, x) || IncludedBy(g, more, x) {
    }
  }

  /** What the walk from a file reports is what walking its includes reports, and those. */
  lemma ReportedAround(g: Graph<FileList>, before: map<FileList, Option<string>>, walked: seq<FileList>, f: FileList)
    requires g.Keys <= before.Keys && f in g
    ensures Reported(g, before, g[f], walked) == Reported(g, before, [], walked + [f])
  {
    forall x <- g ensures IncludedBy(g, walked + [f], x) <==> IncludedBy(g, walked, x) || x in g[f] {
    }
  }

  ghost function IndexIn(out: seq<FileList>, f: FileList): (k: nat)
    requires f in out
    ensures k < |out| && out[k] == f && forall i :: 0 <= i < k ==> out[i] != f
  {
    if out[0] == f then 0 else IndexIn(out[1..], f) + 1
  }

  ghost predicate HasFirst(out: seq<FileList>, list: seq<FileList>, i: nat) {
    i <= |list| && forall k :: 0 <= k < i ==> list[k] in out
  }

  /**
   How many files stand in order when the turn of place `i` of a list comes, if `n` did at the start: a file that
   does not stand there already is the last that its own turn adds.
   */
  ghost function Turn(n: nat, out: seq<FileList>, list: seq<FileList>, i: nat): (k: nat)
    requires n <= |out| && HasFirst(out, list, i)
    ensures n <= k <= |out|
  {
    if i == 0 then n
    else
      var k := Turn(n, out, list, i - 1);
      if list[i - 1] in out[..k] then k else IndexIn(out, list[i - 1]) + 1
  }

  lemma IndexStays(out: seq<FileList>, more: seq<FileList>, f: FileList)
    requires out <= more && f in out
    ensures IndexIn(more, f) == IndexIn(out, f)
  {
  }

  lemma {:induction false} TurnStays(n: nat, out: seq<FileList>, more: seq<FileList>, list: seq<FileList>, i: nat)
    requires n <= |out| && out <= more && HasFirst(out, list, i)
    ensures HasFirst(more, list, i) && Turn(n, more, list, i) == Turn(n, out, list, i)
  {
    if i > 0 {
      TurnStays(n, out, more, list, i - 1);
      IndexStays(out, more, list[i - 1]);
      hide IndexIn;
      var k := Turn(n, out, list, i - 1);
      assert more[..k] == out[..k];
    }
  }

  /** The turn of a file leaves it in its place: where it was, or last. */
  ghost predicate TurnDone(was: seq<FileList>, now: seq<FileList>, f: FileList) {
    if f in was then now == was else |now| > 0 && now[|now| - 1] == f && forall i :: 0 <= i < |now| - 1 ==> now[i] != f
  }

  lemma TurnAdds(was: seq<FileList>, walked: seq<FileList>, f: FileList)
    requires was <= walked && f !in walked
    ensures TurnDone(was, walked + [f], f) && (walked + [f])[|was|..] == walked[|was|..] + [f]
  {
  }

  lemma TurnNext(n: nat, was: seq<FileList>, now: seq<FileList>, list: seq<FileList>, i: nat)
    requires n <= |was| && was <= now && HasFirst(was, list, i) && i < |list|
    requires Turn(n, was, list, i) == |was| && TurnDone(was, now, list[i])
    ensures HasFirst(now, list, i + 1) && Turn(n, now, list, i + 1) == |now|
  {
    TurnStays(n, was, now, list, i);
    assert now[..|was|] == was;
    if list[i] !in was {
      assert IndexIn(now, list[i]) == |now| - 1;
    }
  }

  /** When the turn of place `i` came, the file there was not, or no longer, known as a source. */
  ghost predicate ProperAt(g: Graph<FileList>, before: map<FileList, Option<string>>, list: seq<FileList>, n: nat, out: seq<FileList>, i: nat)
    requires g.Keys <= before.Keys && n <= |out| && HasFirst(out, list, i) && i < |list|
  {
    var known := Reported(g, before, list[..i], out[n..Turn(n, out, list, i)]);
    list[i] in known && known[list[i]] == None
  }

  lemma ProperStays(g: Graph<FileList>, before: map<FileList, Option<string>>, list: seq<FileList>, n: nat,
                    was: seq<FileList>, now: seq<FileList>, i: nat)
    requires g.Keys <= before.Keys && n <= |was| && was <= now && HasFirst(was, list, i) && i < |list|
    ensures HasFirst(now, list, i) && ProperAt(g, before, list, n, now, i) == ProperAt(g, before, list, n, was, i)
  {
    TurnStays(n, was, now, list, i);
    var k := Turn(n, was, list, i);
    assert now[n..k] == was[n..k];
  }

  /** All files of the list before place `i` were proper when their turn came. */
  ghost predicate AllProper(g: Graph<FileList>, before: map<FileList, Option<string>>, list: seq<FileList>, n: nat, out: seq<FileList>, i: nat)
    requires g.Keys <= before.Keys && n <= |out| && HasFirst(out, list, i)
  {
    forall k :: 0 <= k < i ==> ProperAt(g, before, list, n, out, k)
  }

  lemma AllProperStep(g: Graph<FileList>, before: map<FileList, Option<string>>, list: seq<FileList>, n: nat,
                      was: seq<FileList>, now: seq<FileList>, i: nat)
    requires g.Keys <= before.Keys && n <= |was| && was <= now && HasFirst(was, list, i) && i < |list| && list[i] in g
    requires Turn(n, was, list, i) == |was| && HasFirst(now, list, i + 1)
    ensures AllProper(g, before, list, n, now, i + 1) <==>
            AllProper(g, before, list, n, was, i) && Reported(g, before, list[..i], was[n..])[list[i]] == None
  {
    hide Reported, Turn;
    forall k | 0 <= k <= i ensures HasFirst(now, list, k) && ProperAt(g, before, list, n, now, k) == ProperAt(g, before, list, n, was, k) {
      ProperStays(g, before, list, n, was, now, k);
    }
    assert was[n..|was|] == was[n..];
    assert ProperAt(g, before, list, n, now, i) <==> Reported(g, before, list[..i], was[n..])[list[i]] == None;
    hide ProperAt;
    if AllProper(g, before, list, n, was, i) && ProperAt(g, before, list, n, now, i) {
      forall k | 0 <= k <= i ensures ProperAt(g, before, list, n, now, k) {
        assert k < i ==> ProperAt(g, before, list, n, was, k);
      }
    }
    if AllProper(g, before, list, n, now, i + 1) {
      forall k | 0 <= k < i ensures ProperAt(g, before, list, n, was, k) {
        assert ProperAt(g, before, list, n, now, k);
      }
    }
  }

  lemma NoTurns(g: Graph<FileList>, before: map<FileList, Option<string>>, list: seq<FileList>, out: seq<FileList>)
    requires g.Keys <= before.Keys
    ensures HasFirst(out, list, 0) && Turn(|out|, out, list, 0) == |out| && AllProper(g, before, list, |out|, out, 0)
  {
  }

  class FileList {
    var name: string
    var elements: seq<FileList>
    var beenHere: bool
    var mayBeCycle: bool
    var isCycle: bool
    /** In the list because a file can refuse to. */
    var useGrandInclude: bool
    var platformDependentInclude: Option<string>
    var count: nat

    constructor (name: string, useGrandInclude: bool)
      ensures this.name == name && elements == [] && this.useGrandInclude == useGrandInclude && count == 0
      ensures !beenHere && !mayBeCycle && !isCycle && platformDependentInclude == None
    {
      this.name := name;
      elements := [];
      beenHere, mayBeCycle, isCycle := false, false, false;
      this.useGrandInclude := useGrandInclude;
      platformDependentInclude := None;
      count := 0;
    }

    method IncrementCount()
      modifies this`count
      ensures count == old(count) + 1
    {
      count := count + 1;
    }

    /** A source of platform dependent includes should not be included directly; reported once per file. */
    method ReportDirectUse(ghost g: Graph<FileList>) returns (proper: bool)
      requires this in g
      modifies this`platformDependentInclude
      ensures proper <==> old(Sources(g))[this] == None
      ensures Sources(g) == old(Sources(g))[this := None]
    {
      proper := platformDependentInclude == None;
      platformDependentInclude := None;
    }

    /**
     Puts the headers of this list into `s`, dependencies first. Every header that is the source of a platform
     dependent include is reported, once, if this list or a file walked now includes it; `done` says that this
     list had none to report.
     */
    method DoFiles(s: FileList, ghost g: Graph<FileList>, ghost chain: seq<FileList>) returns (done: bool, fatal: bool)
      requires Drawn(g) && Walking(g, s.elements, chain) && s !in g && s != this
      requires AllIn(elements, g) && (chain != [] ==> chain[|chain| - 1] in g && elements == g[chain[|chain| - 1]])
      modifies g.Keys`beenHere, g.Keys`mayBeCycle, g.Keys`isCycle, g.Keys`platformDependentInclude, s`elements
      ensures !fatal ==> Walking(g, s.elements, chain) && old(s.elements) <= s.elements && forall h <- elements :: h in s.elements
      ensures fatal ==> exists f <- g :: Cyclic(g, f)
      ensures !fatal ==> Sources(g) == Reported(g, old(Sources(g)), elements, s.elements[|old(s.elements)|..])
      ensures !fatal ==> HasFirst(s.elements, elements, |elements|)
      ensures !fatal ==> (done <==> AllProper(g, old(Sources(g)), elements, |old(s.elements)|, s.elements, |elements|))
      decreases |Left(g, s.elements, chain)|, 2
    {
      hide Walking, Left, Cyclic, Reported, Sources, Drawn, Turn, AllProper, TurnDone;
      done, fatal := true, false;
      var list := elements;
      ghost var before, n := Sources(g), |s.elements|;
      NothingReported(g, before);
      assert s.elements[n..] == [] && list[..0] == [];
      NoTurns(g, before, list, s.elements);
      for i := 0 to |list|
        invariant Drawn(g) && Walking(g, s.elements, chain) && old(s.elements) <= s.elements
        invariant HasFirst(s.elements, list, i) && Turn(n, s.elements, list, i) == |s.elements|
        invariant Sources(g) == Reported(g, before, list[..i], s.elements[n..])
        invariant done <==> AllProper(g, before, list, n, s.elements, i)
      {
        var h := list[i];
        ghost var was := s.elements;
        var proper := h.ReportDirectUse(g);
        LeftShrinks(g, old(s.elements), s.elements, chain);
        fatal := h.DoHFile(s, g, chain);
        if fatal {
          return;
        }
        Prefix(list, i);
        Suffix(was, s.elements, n);
        ReportedStep(g, before, list[..i], was[n..], h, s.elements[|was|..]);
        TurnNext(n, was, s.elements, list, i);
        AllProperStep(g, before, list, n, was, s.elements, i);
        done := done && proper;
      }
      assert list[..|list|] == list;
    }

    /** Follows files being walked that are not traced yet; comes to an end when one of them includes `s`. */
    method TraceCycle(s: FileList, ghost g: Graph<FileList>, ghost chain: seq<FileList>) returns (fatal: bool)
      requires Drawn(g) && Closed(g) && this in chain && (forall f <- chain :: f in g)
      requires forall f <- g :: f.mayBeCycle <==> f in chain
      modifies g.Keys`isCycle
      ensures forall f <- g :: old(f.isCycle) ==> f.isCycle
      ensures !fatal ==> isCycle && forall f <- g :: f.isCycle && !old(f.isCycle) ==> Passed(g, chain, Traced(g), s, f)
      decreases |g.Keys - Traced(g)|
    {
      if isCycle {
        return false;
      }
      assert AllIn(elements, g) && elements == g[this];
      hide Passed, Closed;
      isCycle := true;
      for i := 0 to |elements|
        invariant forall f <- g :: old(f.isCycle) ==> f.isCycle
        invariant isCycle
        invariant forall k :: 0 <= k < i && elements[k] in chain ==> elements[k] != s && elements[k].isCycle
        invariant forall f <- g :: f.isCycle && !old(f.isCycle) && f != this ==> Passed(g, chain, Traced(g), s, f)
      {
        var q := elements[i];
        if q.mayBeCycle {
          if s == q {
            return true;
          }
          ghost var traced := Traced(g);
          FewerLeft(g.Keys, old(Traced(g)), traced, this);
          fatal := q.TraceCycle(s, g, chain);
          if fatal {
            return;
          }
          PassedStay(g, chain, traced, Traced(g), s);
        }
      }
      fatal := false;
      PassedNow(g, chain, Traced(g), s, this, elements);
    }

    /** Follows the files being walked from this one, which is among them: it must come back. */
    method TraceOwnCycle(ghost g: Graph<FileList>, ghost chain: seq<FileList>) returns (fatal: bool)
      requires Drawn(g) && Closed(g) && Chain(g, chain) && this in chain && this in g[chain[|chain| - 1]]
      requires forall f <- g :: (f.mayBeCycle <==> f in chain) && !f.isCycle
      modifies g.Keys`isCycle
      ensures fatal && exists f <- g :: Cyclic(g, f)
    {
      fatal := TraceCycle(this, g, chain);
      ghost var j :| 0 <= j < |chain| && chain[j] == this;
      ChainCloses(g, chain, j);
      assert this in g && Cyclic(g, this);
      TraceComesBack(g, chain, j, Traced(g));
    }

    /** The walk enters this file. */
    method BeginWalk(ghost g: Graph<FileList>, ghost out: seq<FileList>, ghost chain: seq<FileList>)
      requires Walking(g, out, chain) && !beenHere && this in g && (chain != [] ==> this in g[chain[|chain| - 1]])
      modifies this`beenHere, this`mayBeCycle
      ensures Walking(g, out, chain + [this]) && |Left(g, out, chain + [this])| < |Left(g, out, chain)|
    {
      beenHere := true;
      mayBeCycle := true;
      Enters(g, out, chain, this);
    }

    /** The walk leaves this file, which takes its place after the files it includes. */
    method EndWalk(s: FileList, ghost g: Graph<FileList>, ghost chain: seq<FileList>)
      requires Walking(g, s.elements, chain + [this]) && this in g && s !in g && forall h <- g[this] :: h in s.elements
      modifies this`mayBeCycle, s`elements
      ensures s.elements == old(s.elements) + [this] && this !in old(s.elements) && Walking(g, s.elements, chain)
    {
      mayBeCycle := false;
      Leaves(g, s.elements, chain, this);
      s.elements := s.elements + [this];
    }

    /** The walk of a file not met before. */
    method WalkFile(s: FileList, ghost g: Graph<FileList>, ghost chain: seq<FileList>) returns (fatal: bool)
      requires Drawn(g) && Walking(g, s.elements, chain) && s !in g && !beenHere
      requires this in g && (chain != [] ==> this in g[chain[|chain| - 1]])
      modifies g.Keys`beenHere, g.Keys`mayBeCycle, g.Keys`isCycle, g.Keys`platformDependentInclude, s`elements
      ensures !fatal ==> Walking(g, s.elements, chain) && old(s.elements) <= s.elements && this in s.elements
      ensures fatal ==> exists f <- g :: Cyclic(g, f)
      ensures !fatal ==> TurnDone(old(s.elements), s.elements, this)
      ensures !fatal ==> Sources(g) == Reported(g, old(Sources(g)), [], s.elements[|old(s.elements)|..])
      decreases |Left(g, s.elements, chain)|, 0
    {
      hide Left, Reported, Sources, AllProper, TurnDone, Cyclic;
      ghost var before, n := Sources(g), |s.elements|;
      assert AllIn(elements, g) && elements == g[this];
      BeginWalk(g, s.elements, chain);
      hide Walking, Drawn;
      var done;
      done, fatal := DoFiles(s, g, chain + [this]);
      if fatal {
        return;
      }
      ghost var walked := s.elements;
      ReportedAround(g, before, walked[n..], this);
      EndWalk(s, g, chain);
      TurnAdds(old(s.elements), walked, this);
    }

    method DoHFile(s: FileList, ghost g: Graph<FileList>, ghost chain: seq<FileList>) returns (fatal: bool)
      requires Drawn(g) && Walking(g, s.elements, chain) && s !in g
      requires this in g && (chain != [] ==> this in g[chain[|chain| - 1]])
      modifies g.Keys`beenHere, g.Keys`mayBeCycle, g.Keys`isCycle, g.Keys`platformDependentInclude, s`elements
      ensures !fatal ==> Walking(g, s.elements, chain) && old(s.elements) <= s.elements && this in s.elements
      ensures fatal ==> exists f <- g :: Cyclic(g, f)
      ensures !fatal ==> TurnDone(old(s.elements), s.elements, this)
      ensures !fatal ==> Sources(g) == Reported(g, old(Sources(g)), [], s.elements[|old(s.elements)|..])
      decreases |Left(g, s.elements, chain)|, 1
    {
      hide Left, Reported, Sources, AllProper, Cyclic;
      if beenHere {
        NothingReported(g, Sources(g));
        assert s.elements[|s.elements|..] == [];
        fatal := false;
        if mayBeCycle {
          fatal := TraceOwnCycle(g, chain);
        }
      } else {
        fatal := WalkFile(s, g, chain);
      }
    }

    /** Makes the next walk independent of this one. */
    method Unmark(ghost g: Graph<FileList>)
      requires forall f <- g :: (f.beenHere ==> f in elements) && !f.mayBeCycle && !f.isCycle
      requires this !in g && AllIn(elements, g)
      modifies g.Keys`beenHere
      ensures Untouched(g)
    {
      for i := 0 to |elements|
        invariant forall f <- g :: (f.beenHere ==> f in elements[i..]) && !f.mayBeCycle && !f.isCycle
      {
        elements[i].beenHere := false;
      }
    }

    /**
     The headers a C file needs: exactly those it includes, directly or not, each once and after its own
     includes. It ends the program exactly when some of them include each other in a cycle.
     */
    method DoCFile(ghost g: Graph<FileList>) returns (s: FileList, fatal: bool)
      requires Drawn(g) && Closed(g) && AllIn(elements, g) && Untouched(g)
      modifies g.Keys`beenHere, g.Keys`mayBeCycle, g.Keys`isCycle, g.Keys`platformDependentInclude
      ensures fresh(s) && s.name == name && s.useGrandInclude == useGrandInclude && s.count == 0
      ensures fatal <==> MeetsCycle(g, elements)
      ensures !fatal ==> Untouched(g) && Needs(g, elements, s.elements)
    {
      hide Reported, Sources, Left, Cyclic, AllProper;
      ghost var roots := Files(elements);
      ghost var part := Part(g, Closure(g, roots));
      ClosureIsClosed(g, roots);
      s := new FileList(name, useGrandInclude);
      var done;
      done, fatal := DoFiles(s, part, []);
      if fatal {
        ghost var f :| f in part && Cyclic(part, f);
        PartCyclic(g, Closure(g, roots), f);
        return;
      }
      WalkedAll(g, elements, s.elements);
      NeedsIsAcyclic(g, elements, s.elements);
      OrderedIsClosed(g, s.elements);
      s.Unmark(g);
    }
  }
}
