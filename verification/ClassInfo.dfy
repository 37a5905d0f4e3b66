/**
 A class being processed by `jcc`: its constant table is compacted to the entries in use and
 every reference in the code of its methods is patched. The main theorem says that the new code,
 read against the new table, means what the old code meant against the old one.
 */
module Classes {
  import opened Bytecode
  import opened Constants
  import opened SlotTable
  import opened Methods

  // ------------------------------------------------------ preservation of meaning

  /** A constant-pool reference of the given width stands at `p`. */
  predicate IsReference(code: seq<u8>, p: nat, wide: bool) {
    p < |code| && (if wide then IsWideRef(code[p]) else code[p] == LDC)
  }

  /** The references at `p` in the two codes select the same entry from their own tables. */
  predicate SameSelection(before: seq<u8>, oldTable: seq<ConstantObject?>,
                          after: seq<u8>, newTable: seq<ConstantObject?>, p: nat, wide: bool)
  {
    && |after| == |before| && p + (if wide then 3 else 2) <= |before|
    && Selects(before, oldTable, p, wide)
    && Selects(after, newTable, p, wide)
    && newTable[Operand(after, p, wide)] == oldTable[Operand(before, p, wide)]
  }

  /** Byte `q` is an operand byte of a constant-pool reference of `code`. */
  ghost predicate InReference(code: seq<u8>, q: nat)
    requires WellFormed(code, 0, |code|)
  {
    exists p: nat, wide :: p in Starts(code, 0, |code|) && IsReference(code, p, wide) && OperandHas(p, wide, q)
  }

  /**
   Same instructions at the same boundaries; every reference selects the same entry; no byte
   outside the operand of a reference differs.
   */
  ghost predicate SameMeaning(before: seq<u8>, oldTable: seq<ConstantObject?>,
                              after: seq<u8>, newTable: seq<ConstantObject?>)
  {
    && |after| == |before|
    && WellFormed(before, 0, |before|) && WellFormed(after, 0, |after|)
    && Starts(after, 0, |after|) == Starts(before, 0, |before|)
    && (forall p: nat, wide :: p in Starts(before, 0, |before|) && IsReference(before, p, wide) ==>
          IsReference(after, p, wide) && SameSelection(before, oldTable, after, newTable, p, wide))
    && (forall q: nat :: q < |before| && !InReference(before, q) ==> after[q] == before[q])
  }

  /** The listed references select entries that are kept. */
  ghost predicate SelectKept(code: seq<u8>, table: seq<ConstantObject?>, keep: set<ConstantObject>, list: seq<int>, wide: bool)
    requires ListOk(|code|, list, wide)
  {
    forall i :: 0 <= i < |list| && list[i] != -1 ==>
      Selects(code, table, list[i], wide) && table[Operand(code, list[i], wide)] in keep
  }

  /** `indices` gives every kept entry its position in the compacted table. */
  ghost predicate IndexedByPosition(table: seq<ConstantObject?>, keep: set<ConstantObject>, indices: seq<int>) {
    && |indices| == |table|
    && forall k :: 1 <= k < |table| && table[k] != null && table[k] in keep ==> indices[k] == Position(table, keep, k)
  }

  /** Bytes outside the references found by the scan are outside every reference. */
  lemma OutsideReferences(code: seq<u8>, ldc: seq<int>, wide: seq<int>, q: nat)
    requires WellFormed(code, 0, |code|) && SitesFound(code, ldc, wide)
    ensures IsOperandByte(ldc, |ldc|, false, q) || IsOperandByte(wide, |wide|, true, q) <==> InReference(code, q)
  {
    if IsOperandByte(ldc, |ldc|, false, q) {
      var k :| 0 <= k < |ldc| && OperandHas(ldc[k], false, q);
      assert ldc[k] in ldc;
      assert IsReference(code, ldc[k], false);
    }
    if IsOperandByte(wide, |wide|, true, q) {
      var k :| 0 <= k < |wide| && OperandHas(wide[k], true, q);
      assert wide[k] in wide;
      assert IsReference(code, wide[k], true);
    }
    if InReference(code, q) {
      var p: nat, w :| p in Starts(code, 0, |code|) && IsReference(code, p, w) && OperandHas(p, w, q);
      var list := if w then wide else ldc;
      assert p in list;
      var k :| 0 <= k < |list| && list[k] == p;
      assert OperandHas(list[k], w, q);
    }
  }

  /** No operand byte of a reference is the first byte of an instruction, or belongs to an instruction that is not a reference. */
  lemma ReferenceBytes(code: seq<u8>, p: nat, q: nat)
    requires WellFormed(code, 0, |code|) && p in Starts(code, 0, |code|)
    requires Fits(code, p) && p <= q < p + OpcodeLength(code, p)
    requires q == p || !(IsReference(code, p, false) || IsReference(code, p, true))
    ensures !InReference(code, q)
  {
    if InReference(code, q) {
      var r: nat, w :| r in Starts(code, 0, |code|) && IsReference(code, r, w) && OperandHas(r, w, q);
      BoundariesApart(code, r, p);
    }
  }

  /** Changing only operand bytes of references changes no instruction boundary. */
  lemma SameBoundaries(before: seq<u8>, after: seq<u8>)
    requires WellFormed(before, 0, |before|) && |after| == |before|
    requires forall q: nat :: q < |before| && !InReference(before, q) ==> after[q] == before[q]
    ensures WellFormed(after, 0, |after|) && Starts(after, 0, |after|) == Starts(before, 0, |before|)
    ensures forall p :: p in Starts(before, 0, |before|) ==> p < |before| && after[p] == before[p]
  {
    var s := Starts(before, 0, |before|);
    forall p | p in s ensures p < |before| && after[p] == before[p] && SameLength(before, after, p) {
      BoundaryFits(before, p);
      ReferenceBytes(before, p, p);
      if IsReference(before, p, false) || IsReference(before, p, true) {
        FitsIsPositive(before, p);
      } else {
        forall q | p <= q < p + OpcodeLength(before, p) ensures after[q] == before[q] {
          ReferenceBytes(before, p, q);
        }
        SliceDecides(before, after, p);
      }
    }
    WalkDependsOn(before, after, 0, |before|);
  }

  /** The new index of a kept entry is no higher than the old one, and selects that entry from the compacted table. */
  lemma IndexSelects(table: seq<ConstantObject?>, keep: set<ConstantObject>, indices: seq<int>, k: nat)
    requires TableOk(table) && IndexedByPosition(table, keep, indices)
    requires k < |table| && table[k] != null && table[k] in keep
    ensures 1 <= indices[k] <= k && indices[k] < |Compact(table, keep, |table|)|
    ensures Compact(table, keep, |table|)[indices[k]] == table[k]
  {
    NeverRaised(table, keep, k);
    CompactPlaces(table, keep, k, |table|);
  }

  /** A reference patched with the place of its entry in the new table selects what it selected before. */
  lemma PatchedSelects(before: seq<u8>, after: seq<u8>, table: seq<ConstantObject?>, newTable: seq<ConstantObject?>,
                       indices: seq<int>, p: nat, wide: bool)
    requires |after| == |before| && SiteOk(|before|, p, wide)
    requires Selects(before, table, p, wide) && PatchedAt(before, after, indices, p, wide)
    requires var v := indices[Operand(before, p, wide)];
             0 <= v < 0x1_0000 && v < |newTable| && newTable[v] == table[Operand(before, p, wide)]
    ensures SameSelection(before, table, after, newTable, p, wide)
  {
    var v := indices[Operand(before, p, wide)];
    assert v % 0x1_0000 == v;
  }

  /** Code scanned into its sites, all of which select entries that are kept. */
  ghost predicate ReadyToPatch(v: CodeView, table: seq<ConstantObject?>, keep: set<ConstantObject>) {
    && WellFormed(v.code, 0, |v.code|) && SitesFound(v.code, v.ldc, v.wide)
    && ListOk(|v.code|, v.ldc, false) && ListOk(|v.code|, v.wide, true)
    && SelectKept(v.code, table, keep, v.ldc, false) && SelectKept(v.code, table, keep, v.wide, true)
  }

  /** Every reference of the code selects one of the given entries. */
  ghost predicate SelectsOnly(code: seq<u8>, table: seq<ConstantObject?>, own: set<ConstantObject>)
    requires WellFormed(code, 0, |code|)
  {
    forall p: nat, wide :: p in Starts(code, 0, |code|) && IsReference(code, p, wide) ==>
      p + (if wide then 3 else 2) <= |code| && Selects(code, table, p, wide) && table[Operand(code, p, wide)] in own
  }

  lemma ScannedIsReady(v: CodeView, table: seq<ConstantObject?>, own: set<ConstantObject>)
    requires WellFormed(v.code, 0, |v.code|) && SitesFound(v.code, v.ldc, v.wide) && SelectsOnly(v.code, table, own)
    ensures ReadyToPatch(v, table, own)
  {
    FoundSitesAreOk(v.code, v.ldc, v.wide);
    forall i | 0 <= i < |v.ldc|
      ensures Selects(v.code, table, v.ldc[i], false) && table[Operand(v.code, v.ldc[i], false)] in own
    {
      assert v.ldc[i] in v.ldc && IsReference(v.code, v.ldc[i], false);
    }
    forall i | 0 <= i < |v.wide|
      ensures Selects(v.code, table, v.wide[i], true) && table[Operand(v.code, v.wide[i], true)] in own
    {
      assert v.wide[i] in v.wide && IsReference(v.code, v.wide[i], true);
    }
  }

  /** Patching every reference with its entry's position in the compacted table preserves meaning. */
  lemma PatchingKeepsMeaning(v: CodeView, after: seq<u8>, table: seq<ConstantObject?>, keep: set<ConstantObject>, indices: seq<int>)
    requires ReadyToPatch(v, table, keep) && CodePatched(v, after, indices)
    requires TableOk(table) && |table| <= 0x1_0000 && IndexedByPosition(table, keep, indices)
    ensures SameMeaning(v.code, table, after, Compact(table, keep, |table|))
  {
    var before := v.code;
    forall q: nat | q < |before| && !InReference(before, q) ensures after[q] == before[q] {
      OutsideReferences(before, v.ldc, v.wide, q);
    }
    SameBoundaries(before, after);
    forall p: nat, w | p in Starts(before, 0, |before|) && IsReference(before, p, w)
      ensures IsReference(after, p, w) && SameSelection(before, table, after, Compact(table, keep, |table|), p, w)
    {
      var list := if w then v.wide else v.ldc;
      assert p in list;
      var k :| 0 <= k < |list| && list[k] == p;
      assert PatchedAt(before, after, indices, list[k], w);
      IndexSelects(table, keep, indices, Operand(before, p, w));
      PatchedSelects(before, after, table, Compact(table, keep, |table|), indices, p, w);
    }
  }

  lemma SitesRelocatable(code: seq<u8>, list: seq<int>, wide: bool, table: seq<ConstantObject?>, keep: set<ConstantObject>, marks: Marks)
    requires ListOk(|code|, list, wide) && SelectKept(code, table, keep, list, wide)
    requires TableOk(table) && IndexedByPosition(table, keep, marks.indices) && |marks.shared| == |table|
    requires forall k :: 0 <= k < |table| && table[k] != null && table[k] in keep ==> !marks.shared[k]
    ensures Relocatables(code, marks, list, |list|, wide)
  {
    forall i | 0 <= i < |list| && list[i] != -1 ensures Relocatable(marks, Operand(code, list[i], wide), wide) {
      IndexSelects(table, keep, marks.indices, Operand(code, list[i], wide));
    }
  }

  /** None of the source's three format errors can arise: kept entries are not shared, not deleted, and not moved up. */
  lemma NothingToReport(v: CodeView, table: seq<ConstantObject?>, keep: set<ConstantObject>, marks: Marks)
    requires ReadyToPatch(v, table, keep)
    requires TableOk(table) && IndexedByPosition(table, keep, marks.indices) && |marks.shared| == |table|
    requires forall k :: 0 <= k < |table| && table[k] != null && table[k] in keep ==> !marks.shared[k]
    ensures AllRelocatable(v, marks)
  {
    SitesRelocatable(v.code, v.ldc, false, table, keep, marks);
    SitesRelocatable(v.code, v.wide, true, table, keep, marks);
  }

  /** The indices and sharing marks of a table's entries as they now stand. */
  lemma MarksNow(table: seq<ConstantObject?>) returns (marks: Marks)
    ensures MarksOf(table, marks)
  {
    var indices, shared := [], [];
    for k := 0 to |table|
      invariant |indices| == |shared| == k
      invariant forall j :: 0 <= j < k && table[j] != null ==> table[j].index == indices[j] && table[j].shared == shared[j]
    {
      indices := indices + [if table[k] == null then 0 else table[k].index];
      shared := shared + [table[k] != null && table[k].shared];
    }
    marks := Marks(indices, shared);
  }

  lemma SelectedAreKept(g: Graph, code: seq<u8>, list: seq<int>, wide: bool, table: seq<ConstantObject?>,
                        own: set<ConstantObject>, keep: set<ConstantObject>, counted: seq<seq<ConstantObject>>, k: nat)
    requires Closed(g) && WithinEach(counted, g) && k < |counted| && Within(counted[k], g)
    requires ListOk(|code|, list, wide) && AllSelect(code, table, list, wide) && SelectKept(code, table, own, list, wide)
    requires forall c <- Selected(code, table, list, wide) :: c in counted[k]
    requires forall o <- g :: o in own && UsesEach(g, counted, |counted|, o) > 0 ==> o in keep
    ensures SelectKept(code, table, keep, list, wide)
  {
    forall i | 0 <= i < |list| && list[i] != -1
      ensures Selects(code, table, list[i], wide) && table[Operand(code, list[i], wide)] in keep
    {
      var c: ConstantObject := table[Operand(code, list[i], wide)];
      assert c in Selected(code, table, list, wide);
      ListedIsUsed(g, counted[k], c);
      EachCounts(g, counted, |counted|, k, c);
    }
  }

  /** If counted entries of the class's own are kept, so is everything a counted code selects. */
  lemma UsesAreKept(g: Graph, held: seq<ConstantObject>, v: CodeView, table: seq<ConstantObject?>,
                    own: set<ConstantObject>, keep: set<ConstantObject>, counted: seq<seq<ConstantObject>>, k: nat)
    requires Closed(g) && WithinEach(counted, g) && k < |counted|
    requires ReadyToPatch(v, table, own) && Countable(v, table) && counted[k] == Counted(held, v, table)
    requires forall o <- g :: o in own && UsesEach(g, counted, |counted|, o) > 0 ==> o in keep
    ensures ReadyToPatch(v, table, keep)
  {
    assert Within(counted[k], g);
    SelectedAreKept(g, v.code, v.ldc, false, table, own, keep, counted, k);
    SelectedAreKept(g, v.code, v.wide, true, table, own, keep, counted, k);
  }

  ghost predicate Patchable(v: CodeView, table: seq<ConstantObject?>) {
    Countable(v, table) && ListsApart(v.ldc, v.wide)
  }

  lemma ReadyIsPatchable(v: CodeView, table: seq<ConstantObject?>, keep: set<ConstantObject>)
    requires ReadyToPatch(v, table, keep)
    ensures Patchable(v, table)
  {
    FoundSitesAreOk(v.code, v.ldc, v.wide);
  }

  ghost predicate AllPatchable(views: seq<CodeView>, table: seq<ConstantObject?>) {
    forall k :: 0 <= k < |views| ==> Patchable(views[k], table)
  }

  /** `own` and `keep` are the entries that are not shared, and those of them that are in use. */
  ghost predicate Sorted(entries: set<ConstantObject>, own: set<ConstantObject>, keep: set<ConstantObject>)
    reads entries`shared, entries`references
  {
    forall c <- entries :: (c in own <==> !c.shared) && (c in keep <==> !c.shared && c.references != 0)
  }

  ghost predicate StandsIn(table: seq<ConstantObject?>, entries: set<ConstantObject>) {
    forall i :: 0 <= i < |table| && table[i] != null ==> table[i] in entries
  }

  /** None of these entries stands in the table twice. */
  ghost predicate OnceIn(table: seq<ConstantObject?>, own: set<ConstantObject>) {
    forall i, j :: 0 <= i < j < |table| && table[i] != null && table[i] in own ==> table[i] != table[j]
  }

  /** First pass: number the entries that stay; the result is the length of the new table. */
  method NumberKept(table: seq<ConstantObject?>, ghost own: set<ConstantObject>, ghost keep: set<ConstantObject>,
                    ghost entries: set<ConstantObject>, ghost goal: seq<ConstantObject?>, ghost pos: seq<nat>)
    returns (nNew: nat)
    requires LayoutOk(table, keep, goal, pos) && StandsIn(table, entries)
    requires OnceIn(table, own) && Sorted(entries, own, keep)
    modifies entries`index
    ensures nNew == |goal|
    ensures forall k :: 1 <= k < |table| && table[k] != null && table[k] in own ==>
                          table[k].index == (if table[k] in keep then pos[k] else -1)
    ensures forall c <- entries :: c !in own ==> c.index == old(c.index)
  {
    nNew := 1;
    var i := 1;
    while i < |table|
      invariant AtEntry(table, i)
      invariant nNew == pos[i]
      invariant forall c <- entries :: (c in own <==> !c.shared) && (c in keep <==> !c.shared && c.references != 0)
      invariant forall k :: 1 <= k < i && table[k] != null && table[k] in own ==>
                              table[k].index == (if table[k] in keep then pos[k] else -1)
      invariant forall c <- entries :: c !in own ==> c.index == old(c.index)
      decreases |table| - i
    {
      var o := table[i];
      assert StepAt(table, keep, goal, pos, i);
      assert o in entries;
      if !o.shared {
        if o.references == 0 {
          o.index := -1;
        } else {
          o.index := nNew;
          nNew := nNew + o.NSlots();
        }
      }
      i := i + o.NSlots();
    }
  }

  /** Second pass: copy the entries that stay into a table of the counted length. */
  method CopyKept(table: seq<ConstantObject?>, nNew: nat, ghost own: set<ConstantObject>, ghost keep: set<ConstantObject>,
                  ghost entries: set<ConstantObject>, ghost goal: seq<ConstantObject?>, ghost pos: seq<nat>)
    returns (newTable: seq<ConstantObject?>)
    requires LayoutOk(table, keep, goal, pos) && StandsIn(table, entries)
    requires Sorted(entries, own, keep) && nNew == |goal|
    ensures newTable == goal
  {
    var newConstants := new ConstantObject?[nNew];
    forall k | 0 <= k < nNew {
      newConstants[k] := null;
    }
    var i, j := 1, 1;
    while i < |table|
      invariant AtEntry(table, i)
      invariant j == pos[i] <= nNew
      invariant forall k :: 0 <= k < j ==> newConstants[k] == goal[k]
      invariant forall k :: j <= k < nNew ==> newConstants[k] == null
      decreases |table| - i
    {
      var o := table[i];
      assert StepAt(table, keep, goal, pos, i);
      assert o in entries;
      if !o.shared && o.references != 0 {
        newConstants[j] := o;
        j := j + o.NSlots();
      }
      i := i + o.NSlots();
    }
    newTable := newConstants[..];
  }

  /** The own entries among the first `n` slots have the index of their position, or -1 if they are dropped. */
  ghost predicate Renumbered(table: seq<ConstantObject?>, own: set<ConstantObject>, keep: set<ConstantObject>, n: nat)
    requires n <= |table|
    reads own`index
  {
    forall k :: 1 <= k < n && table[k] != null && table[k] in own ==>
      table[k].index == (if table[k] in keep then Position(table, keep, k) else -1)
  }

  lemma CodeIsReady(code: seq<u8>, table: seq<ConstantObject?>, own: set<ConstantObject>)
    requires WellFormed(code, 0, |code|) && SelectsOnly(code, table, own)
    ensures ReadyToPatch(ScanView(code), table, own)
  {
    SitesAreExact(code);
    ScannedIsReady(ScanView(code), table, own);
  }

  /** Constants held by a class and by its methods, and codes whose references select entries of the table. */
  ghost predicate TallyOk(g: Graph, held: seq<ConstantObject>, helds: seq<seq<ConstantObject>>,
                          views: seq<CodeView>, table: seq<ConstantObject?>)
  {
    && Closed(g) && Within(held, g) && WithinEach(helds, g) && TableWithin(table, g)
    && |helds| == |views| && forall k :: 0 <= k < |views| ==> Countable(views[k], table)
  }

  /** Code whose references select entries of the table can be counted. */
  lemma ReadyIsTallied(g: Graph, held: seq<ConstantObject>, helds: seq<seq<ConstantObject>>,
                       views: seq<CodeView>, table: seq<ConstantObject?>, own: set<ConstantObject>)
    requires Closed(g) && Within(held, g) && WithinEach(helds, g) && TableWithin(table, g) && |helds| == |views|
    requires forall k :: 0 <= k < |views| ==> ReadyToPatch(views[k], table, own)
    ensures TallyOk(g, held, helds, views, table)
  {
    forall k | 0 <= k < |views| ensures Countable(views[k], table) {
      assert ReadyToPatch(views[k], table, own);
    }
  }

  // ------------------------------------------------------------ counting

  /** What each method uses: the entries it holds and those its code selects. */
  ghost function Tally(helds: seq<seq<ConstantObject>>, views: seq<CodeView>, table: seq<ConstantObject?>): (r: seq<seq<ConstantObject>>)
    requires |helds| == |views| && forall k :: 0 <= k < |views| ==> Countable(views[k], table)
    ensures |r| == |views| && forall k :: 0 <= k < |views| ==> r[k] == Counted(helds[k], views[k], table)
  {
    seq(|views|, k requires 0 <= k < |views| => Counted(helds[k], views[k], table))
  }

  lemma EntriesWithin(g: Graph, table: seq<ConstantObject?>)
    requires TableWithin(table, g)
    ensures Entries(table) <= g.Keys
  {
  }

  lemma TallyWithin(g: Graph, held: seq<ConstantObject>, helds: seq<seq<ConstantObject>>,
                    views: seq<CodeView>, table: seq<ConstantObject?>)
    requires TallyOk(g, held, helds, views, table)
    ensures WithinEach(Tally(helds, views, table), g)
  {
    forall k | 0 <= k < |views| ensures Within(Counted(helds[k], views[k], table), g) {
      assert Within(helds[k], g);
    }
  }

  /** How often `o` is met from what the class holds and from what its methods use. */
  ghost function TimesMet(g: Graph, held: seq<ConstantObject>, helds: seq<seq<ConstantObject>>,
                          views: seq<CodeView>, table: seq<ConstantObject?>, o: ConstantObject): nat
    requires TallyOk(g, held, helds, views, table)
  {
    TallyWithin(g, held, helds, views, table);
    UsesAll(g, held, o) + UsesEach(g, Tally(helds, views, table), |views|, o)
  }

  /** The codes, each with the references at its instruction boundaries. */
  ghost function Scans(codes: seq<seq<u8>>): (views: seq<CodeView>)
    requires forall k :: 0 <= k < |codes| ==> WellFormed(codes[k], 0, |codes[k]|)
    ensures |views| == |codes| && forall k :: 0 <= k < |codes| ==> views[k] == ScanView(codes[k])
  {
    seq(|codes|, k requires 0 <= k < |codes| => ScanView(codes[k]))
  }

  /** The entries that each method holds. */
  ghost function HeldOf(methods: seq<MethodInfo>): (helds: seq<seq<ConstantObject>>)
    reads (set m <- methods)`held
    ensures |helds| == |methods| && forall k :: 0 <= k < |methods| ==> helds[k] == methods[k].held
  {
    if methods == [] then []
    else HeldOf(methods[..|methods| - 1]) + [methods[|methods| - 1].held]
  }

  predicate SelectsIt(code: seq<u8>, table: seq<ConstantObject?>, p: nat, wide: bool, c: ConstantObject) {
    && p + (if wide then 3 else 2) <= |code|
    && Selects(code, table, p, wide) && table[Operand(code, p, wide)] == c
  }

  /** `c` is held by a method, or a reference at an instruction boundary of its code selects it. */
  ghost predicate UsedBy(held: seq<ConstantObject>, code: seq<u8>, table: seq<ConstantObject?>, c: ConstantObject)
    requires WellFormed(code, 0, |code|)
  {
    || c in held
    || exists p: nat, wide :: p in Starts(code, 0, |code|) && IsReference(code, p, wide) && SelectsIt(code, table, p, wide, c)
  }

  lemma CountedIsUsed(held: seq<ConstantObject>, code: seq<u8>, table: seq<ConstantObject?>, c: ConstantObject)
    requires WellFormed(code, 0, |code|) && Countable(ScanView(code), table)
    ensures c in Counted(held, ScanView(code), table) <==> UsedBy(held, code, table, c)
  {
    var ldc, wides := Sites(code, |code|, false), Sites(code, |code|, true);
    SitesAreExact(code);
    FoundSitesAreOk(code, ldc, wides);
    SelectedByOne(code, table, ldc, false, c);
    SelectedByOne(code, table, wides, true, c);
    if i :| 0 <= i < |ldc| && table[Operand(code, ldc[i], false)] == c {
      assert ldc[i] in ldc && IsReference(code, ldc[i], false) && SelectsIt(code, table, ldc[i], false, c);
    }
    if i :| 0 <= i < |wides| && table[Operand(code, wides[i], true)] == c {
      assert wides[i] in wides && IsReference(code, wides[i], true) && SelectsIt(code, table, wides[i], true, c);
    }
    if p: nat, w :| p in Starts(code, 0, |code|) && IsReference(code, p, w) && SelectsIt(code, table, p, w, c) {
      assert p in if w then wides else ldc;
    }
  }

  /** An entry is met exactly if it is one that the class or a method uses, or below one of them. */
  lemma MetExactly(g: Graph, held: seq<ConstantObject>, helds: seq<seq<ConstantObject>>, codes: seq<seq<u8>>,
                   table: seq<ConstantObject?>, o: ConstantObject)
    requires forall k :: 0 <= k < |codes| ==> WellFormed(codes[k], 0, |codes[k]|)
    requires TallyOk(g, held, helds, Scans(codes), table)
    ensures TimesMet(g, held, helds, Scans(codes), table, o) > 0 <==>
            exists c <- g :: Uses(g, c, o) > 0 &&
              (c in held || exists k :: 0 <= k < |codes| && UsedBy(helds[k], codes[k], table, c))
  {
    var tally := Tally(helds, Scans(codes), table);
    TallyWithin(g, held, helds, Scans(codes), table);
    MetFromOne(g, held, o);
    MetFromOneList(g, tally, |tally|, o);
    forall k | 0 <= k < |codes| ensures UsesAll(g, tally[k], o) > 0 <==> exists c <- g :: c in tally[k] && Uses(g, c, o) > 0 {
      assert Within(tally[k], g);
      MetFromOne(g, tally[k], o);
    }
    forall k, c: ConstantObject | 0 <= k < |codes| ensures c in tally[k] <==> UsedBy(helds[k], codes[k], table, c) {
      assert Countable(Scans(codes)[k], table);
      CountedIsUsed(helds[k], codes[k], table, c);
    }
  }

  // ------------------------------------------------------------ the class

  class ClassInfo {
    var constants: seq<ConstantObject?>
    var oldConstants: seq<ConstantObject?>
    var methods: seq<MethodInfo>
    /** The entries the class holds by object reference: its own name, its superclass, interfaces, fields and attributes. */
    var held: seq<ConstantObject>

    constructor (constants: seq<ConstantObject?>, methods: seq<MethodInfo>, held: seq<ConstantObject>)
      ensures this.constants == constants && this.methods == methods && this.held == held
    {
      this.constants, this.methods, this.held := constants, methods, held;
      oldConstants := [];
    }

    /** The entries that a smash keeps: those of this class's own that are in use. */
    ghost function Live(): set<ConstantObject>
      reads this`constants, Entries(constants)`shared, Entries(constants)`references
    {
      set c <- Entries(constants) | !c.shared && c.references != 0
    }

    /** The entries of the table that are the class's own, not shared through another pool. */
    ghost function Own(): set<ConstantObject>
      reads this`constants, Entries(constants)`shared
    {
      set c <- Entries(constants) | !c.shared
    }

    method SmashConstantPool()
      requires TableOk(constants) && OnceIn(constants, Own())
      modifies this`constants, this`oldConstants, Entries(constants)`index
      ensures oldConstants == old(constants)
      ensures constants == Compact(old(constants), old(Live()), |old(constants)|)
      ensures Renumbered(old(constants), old(Own()), old(Live()), |old(constants)|)
      ensures forall c <- Entries(old(constants)) - old(Own()) :: c.index == old(c.index)
    {
      ghost var own, keep, entries := Own(), Live(), Entries(constants);
      assert StandsIn(constants, entries);
      ghost var goal := Compact(constants, keep, |constants|);
      ghost var pos := Layout(constants, keep);
      var nNew := NumberKept(constants, own, keep, entries, goal, pos);
      var newConstants := CopyKept(constants, nNew, own, keep, entries, goal, pos);
      oldConstants, constants := constants, newConstants;
    }

    /** The code arrays of the methods. */
    ghost function Codes(): set<array<u8>>
      reads this`methods, set m <- methods
    {
      set m <- methods | m.code != null :: m.code
    }

    /** No two methods are one object or share a code array. */
    ghost predicate MethodsApart()
      reads this`methods, set m <- methods
    {
      forall i, j :: 0 <= i < j < |methods| ==>
        methods[i] != methods[j] && (methods[i].code != null ==> methods[i].code != methods[j].code)
    }

    method FindReferences() returns (ok: bool)
      requires MethodsApart()
      requires forall m <- methods :: m.code != null ==> Scannable(m.code[..], 0)
      modifies (set m <- methods)`ldcInstructions, (set m <- methods)`wideConstantRefInstructions
      ensures ok <==> forall m <- methods :: m.code != null ==> WellFormed(m.code[..], 0, m.code.Length)
      ensures ok ==> forall m <- methods :: m.Scanned()
    {
      for i := 0 to |methods|
        invariant forall k :: 0 <= k < i ==> methods[k].Scanned()
      {
        var good := methods[i].FindConstantReferences();
        if !good {
          return false;
        }
      }
      return true;
    }

    /** The methods' codes and site lists. */
    ghost predicate Shows(views: seq<CodeView>)
      reads this`methods, (set m <- methods), Codes()
    {
      |views| == |methods| && forall k :: 0 <= k < |methods| ==> methods[k].View() == views[k]
    }

    /** What the class and its methods use, as far as `views` shows their codes, is all in the graph. */
    ghost predicate Tallied(g: Graph, views: seq<CodeView>)
      reads this`constants, this`held, this`methods, (set m <- methods)`held
    {
      TallyOk(g, held, HeldOf(methods), views, constants)
    }

    method CountMethod(i: nat, ghost g: Graph, ghost views: seq<CodeView>, ghost counted: seq<seq<ConstantObject>>)
      requires i < |methods| && Drawn(g) && Tallied(g, views) && Shows(views)
      requires counted == Tally(HeldOf(methods), views, constants) && Within(counted[i], g)
      modifies g.Keys`references
      ensures forall o <- g :: o.references == old(o.references) + UsesAll(g, counted[i], o)
    {
      assert HeldOf(methods)[i] == methods[i].held;
      methods[i].CountConstantReferences(constants, g);
    }

    method CountMethods(ghost g: Graph, ghost views: seq<CodeView>, ghost counted: seq<seq<ConstantObject>>)
      requires Closed(g) && Drawn(g) && Tallied(g, views) && Shows(views)
      requires counted == Tally(HeldOf(methods), views, constants) && WithinEach(counted, g)
      modifies g.Keys`references
      ensures forall o <- g :: o.references == old(o.references) + UsesEach(g, counted, |counted|, o)
    {
      hide Closed, TableWithin, Countable, Counted, TallyOk, Tally, HeldOf;
      for i := 0 to |methods|
        invariant forall o <- g :: o.references == old(o.references) + UsesEach(g, counted, i, o)
      {
        CountMethod(i, g, views, counted);
      }
    }

    method CountReferences(ghost g: Graph, ghost views: seq<CodeView>)
      requires Drawn(g) && Tallied(g, views) && Shows(views)
      modifies g.Keys`references
      ensures forall o <- g ::
                o.references == old(o.references) + TimesMet(g, held, HeldOf(methods), views, constants, o)
    {
      hide TableWithin, Countable, Counted, Tally, HeldOf;
      TallyWithin(g, held, HeldOf(methods), views, constants);
      CountList(held, g);
      CountMethods(g, views, Tally(HeldOf(methods), views, constants));
    }

    method RelocateReferences(ghost marks: Marks, ghost views: seq<CodeView>) returns (ok: bool, ghost after: seq<CodeView>)
      requires MethodsApart() && MarksOf(oldConstants, marks)
      requires Shows(views) && AllPatchable(views, oldConstants)
      modifies Codes()
      ensures ok <==> forall k :: 0 <= k < |views| ==> AllRelocatable(views[k], marks)
      ensures Shows(after)
      ensures ok ==> forall k :: 0 <= k < |views| ==> CodePatched(views[k], after[k].code, marks.indices)
    {
      hide AllRelocatable, CodePatched;
      after := views;
      for i := 0 to |methods|
        invariant Shows(after)
        invariant forall k :: i <= k < |methods| ==> after[k] == views[k]
        invariant forall k :: 0 <= k < i ==> AllRelocatable(views[k], marks) && CodePatched(views[k], after[k].code, marks.indices)
      {
        assert Patchable(views[i], oldConstants);
        var r := methods[i].RelocateConstantReferences(oldConstants, marks);
        ghost var v := methods[i].View();
        after := after[i := v];
        if r != Relocated {
          return false, after;
        }
      }
      return true, after;
    }

    /** Exactly the entries in `keep` stand in the new table, and every own entry has its position there as index, or -1. */
    twostate predicate Reduced(table: seq<ConstantObject?>, own: set<ConstantObject>, new keep: set<ConstantObject>)
      requires |table| >= 1
      reads this`constants, this`oldConstants, Entries(table)`index, own`index
    {
      && oldConstants == table && constants == Compact(table, keep, |table|)
      && keep <= own && Renumbered(table, own, keep, |table|)
      && forall c <- Entries(table) - own :: c.index == old(c.index)
    }

    method SmashAndRelocate(ghost views: seq<CodeView>, ghost own: set<ConstantObject>, ghost keep: set<ConstantObject>) returns (ok: bool)
      requires TableOk(constants) && |constants| <= 0x1_0000
      requires own == Own() && keep == Live() && OnceIn(constants, own)
      requires MethodsApart() && Shows(views)
      requires forall k :: 0 <= k < |views| ==> ReadyToPatch(views[k], constants, keep)
      modifies Entries(constants)`index, this`constants, this`oldConstants, Codes()
      ensures ok
      ensures forall k :: 0 <= k < |methods| ==> SameMeaning(views[k].code, old(constants), methods[k].View().code, constants)
      ensures Reduced(old(constants), own, keep)
    {
      hide SameMeaning, OnceIn, Compact, Position, CodePatched, ReadyToPatch;
      ghost var table := constants;
      SmashConstantPool();
      assert Reduced(table, own, keep);
      ghost var marks := MarksNow(table);
      assert IndexedByPosition(table, keep, marks.indices);
      forall k | 0 <= k < |views| ensures Patchable(views[k], table) && AllRelocatable(views[k], marks) {
        NothingToReport(views[k], table, keep, marks);
        ReadyIsPatchable(views[k], table, keep);
      }
      ghost var after;
      ok, after := RelocateReferences(marks, views);
      forall k | 0 <= k < |views| ensures SameMeaning(views[k].code, table, after[k].code, constants) {
        PatchingKeepsMeaning(views[k], after[k].code, table, keep, marks.indices);
      }
    }

    /** If counts only grow by what has been counted, the own entries that were met are in use. */
    lemma MetAreLive(g: Graph, views: seq<CodeView>, own: set<ConstantObject>, keep: set<ConstantObject>)
      requires Tallied(g, views) && own == Own() && keep == Live()
      requires forall o <- g :: o.references >= TimesMet(g, held, HeldOf(methods), views, constants, o)
      ensures WithinEach(Tally(HeldOf(methods), views, constants), g)
      ensures forall o <- g :: o in own && UsesEach(g, Tally(HeldOf(methods), views, constants), |views|, o) > 0 ==> o in keep
    {
      TallyWithin(g, held, HeldOf(methods), views, constants);
    }

    /** So the codes may be patched for a table of only the entries in use. */
    lemma MetAreReady(g: Graph, views: seq<CodeView>, own: set<ConstantObject>, keep: set<ConstantObject>)
      requires Tallied(g, views) && own == Own() && keep == Live()
      requires forall o <- g :: o.references >= TimesMet(g, held, HeldOf(methods), views, constants, o)
      requires |views| == |methods| && forall k :: 0 <= k < |views| ==> ReadyToPatch(views[k], constants, own)
      ensures forall k :: 0 <= k < |views| ==> ReadyToPatch(views[k], constants, keep)
    {
      MetAreLive(g, views, own, keep);
      forall k | 0 <= k < |views| ensures ReadyToPatch(views[k], constants, keep) {
        UsesAreKept(g, HeldOf(methods)[k], views[k], constants, own, keep, Tally(HeldOf(methods), views, constants), k);
      }
    }

    /**
     The three steps that reduce a class, once its code has been scanned: count, smash, relocate.
     Kept are the own entries that were in use before or are met now; every method keeps its meaning.
     */
    method Finalize(ghost g: Graph, ghost views: seq<CodeView>) returns (ok: bool, ghost keep: set<ConstantObject>)
      requires Drawn(g) && Tallied(g, views)
      requires forall c <- g :: c.references >= 0
      requires TableOk(constants) && |constants| <= 0x1_0000 && OnceIn(constants, Own())
      requires MethodsApart() && Shows(views)
      requires forall k :: 0 <= k < |views| ==> ReadyToPatch(views[k], constants, Own())
      modifies g.Keys`references, Entries(constants)`index, this`constants, this`oldConstants, Codes()
      ensures ok
      ensures forall o <- g ::
                o.references == old(o.references) + TimesMet(g, held, old(HeldOf(methods)), views, old(constants), o)
      ensures forall c <- Entries(old(constants)) ::
                c in keep <==>
                !old(c.shared) && old(c.references) + TimesMet(g, held, old(HeldOf(methods)), views, old(constants), c) > 0
      ensures Reduced(old(constants), old(Own()), keep)
      ensures forall k :: 0 <= k < |methods| ==> SameMeaning(views[k].code, old(constants), methods[k].View().code, constants)
    {
      hide TimesMet, Closed, HeldOf, ReadyToPatch, SameMeaning, Drawn,
           OnceIn, TableOk, AllPatchable, Compact, Renumbered, TableWithin;
      ghost var table, own := constants, Own();
      CountReferences(g, views);
      keep := Live();
      MetAreReady(g, views, own, keep);
      EntriesWithin(g, table);
      ok := SmashAndRelocate(views, own, keep);
    }

    /** The code of every method that has any is well formed and refers only to the class's own entries. */
    ghost predicate RefersToOwn()
      reads this`constants, Entries(constants)`shared, this`methods, (set m <- methods), Codes()
    {
      forall m <- methods :: m.code != null ==>
        WellFormed(m.code[..], 0, m.code.Length) && SelectsOnly(m.code[..], constants, Own())
    }

    /** The codes of the methods; that of a method without any is empty. */
    ghost predicate HasCodes(codes: seq<seq<u8>>)
      reads this`methods, (set m <- methods), Codes()
    {
      |codes| == |methods| && forall k :: 0 <= k < |methods| ==>
        codes[k] == (if methods[k].code == null then [] else methods[k].code[..])
    }

    lemma CodesNow() returns (codes: seq<seq<u8>>)
      ensures HasCodes(codes)
    {
      codes := [];
      for k := 0 to |methods|
        invariant |codes| == k
        invariant forall j :: 0 <= j < k ==> codes[j] == (if methods[j].code == null then [] else methods[j].code[..])
      {
        codes := codes + [if methods[k].code == null then [] else methods[k].code[..]];
      }
    }

    /** Every code can be scanned, and so scanned refers to own entries of the table. */
    lemma CodesAreReady(codes: seq<seq<u8>>)
      requires HasCodes(codes) && RefersToOwn()
      ensures forall m <- methods :: m.code != null ==> Scannable(m.code[..], 0)
      ensures forall k :: 0 <= k < |codes| ==> WellFormed(codes[k], 0, |codes[k]|)
      ensures forall k :: 0 <= k < |codes| ==> ReadyToPatch(ScanView(codes[k]), constants, Own())
    {
      hide ReadyToPatch, ScanView, Scannable;
      forall m <- methods | m.code != null ensures Scannable(m.code[..], 0) {
        WellFormedIsScannable(m.code[..], 0);
      }
      forall k | 0 <= k < |codes|
        ensures WellFormed(codes[k], 0, |codes[k]|) && ReadyToPatch(ScanView(codes[k]), constants, Own())
      {
        assert methods[k] in methods;
        CodeIsReady(codes[k], constants, Own());
      }
    }

    /** Once all methods have been scanned, they show their codes with the references at the boundaries. */
    lemma ScannedShows(codes: seq<seq<u8>>)
      requires HasCodes(codes) && forall m <- methods :: m.Scanned()
      requires forall k :: 0 <= k < |codes| ==> WellFormed(codes[k], 0, |codes[k]|)
      ensures Shows(Scans(codes))
    {
      forall k | 0 <= k < |methods| ensures methods[k].View() == ScanView(codes[k]) {
        assert methods[k] in methods;
      }
    }

    /** The whole way: finds the references in the code of the methods, then counts, smashes and relocates. */
    method FindAndFinalize(ghost g: Graph) returns (ok: bool, ghost codes: seq<seq<u8>>, ghost keep: set<ConstantObject>)
      requires Closed(g) && Drawn(g) && TableWithin(constants, g) && Within(held, g) && WithinEach(HeldOf(methods), g)
      requires forall c <- g :: c.references >= 0
      requires TableOk(constants) && |constants| <= 0x1_0000 && OnceIn(constants, Own())
      requires MethodsApart() && RefersToOwn()
      modifies g.Keys`references, Entries(constants)`index, this`constants, this`oldConstants, Codes()
      modifies (set m <- methods)`ldcInstructions, (set m <- methods)`wideConstantRefInstructions
      ensures ok && old(HasCodes(codes))
      ensures forall k :: 0 <= k < |methods| ==> SameMeaning(codes[k], old(constants), methods[k].View().code, constants)
      ensures TallyOk(g, held, old(HeldOf(methods)), Scans(codes), old(constants))
      ensures forall o <- g ::
                o.references == old(o.references) + TimesMet(g, held, old(HeldOf(methods)), Scans(codes), old(constants), o)
      ensures forall c <- Entries(old(constants)) ::
                c in keep <==>
                !old(c.shared) && old(c.references) + TimesMet(g, held, old(HeldOf(methods)), Scans(codes), old(constants), c) > 0
      ensures Reduced(old(constants), old(Own()), keep)
    {
      hide TimesMet, TallyOk, Closed, HeldOf, ReadyToPatch, SameMeaning, Drawn, OnceIn, TableOk,
           SelectsOnly, ScanView, TableWithin, Renumbered, Compact, RefersToOwn, HasCodes, Live, Own, Shows;
      codes := CodesNow();
      CodesAreReady(codes);
      ReadyIsTallied(g, held, HeldOf(methods), Scans(codes), constants, Own());
      var found := FindReferences();
      ScannedShows(codes);
      ok, keep := Finalize(g, Scans(codes));
    }
  }
}
