/**
 A method of a class being processed by `jcc`: finding the constant-pool references in its
 code, counting them, and patching them in place once the pool has been compacted.
 */
module Methods {
  import opened Bytecode
  import opened Constants
  import opened LabelTargets

  datatype ExceptionEntry = ExceptionEntry(startPC: int, endPC: int)

  /** How a relocation ends: all operands patched, or one of the source's three format errors. */
  datatype Relocation = Relocated | SharedConstant | DeletedConstant | LdcOutOfRange

  // ------------------------------------------------- sites and operands

  /** A listed site: -1 (ignored), or an instruction whose operand lies inside the code. */
  predicate SiteOk(codeLength: nat, p: int, wide: bool) {
    p == -1 || (0 <= p && p + (if wide then 3 else 2) <= codeLength)
  }

  /** Two sites of one kind do not share an operand byte. */
  predicate Apart(p: int, q: int, wide: bool) {
    p == -1 || q == -1 || (if wide then p + 1 < q || q + 1 < p else p != q)
  }

  ghost predicate ListOk(codeLength: nat, list: seq<int>, wide: bool) {
    && (forall i :: 0 <= i < |list| ==> SiteOk(codeLength, list[i], wide))
    && (forall i, j :: 0 <= i < j < |list| ==> Apart(list[i], list[j], wide))
  }

  predicate OperandHas(p: int, wide: bool, q: int) {
    p != -1 && (q == p + 1 || (wide && q == p + 2))
  }

  /** Byte `q` belongs to the operand of one of the first `n` listed sites. */
  ghost predicate IsOperandByte(list: seq<int>, n: nat, wide: bool, q: int)
    requires n <= |list|
  {
    exists k :: 0 <= k < n && OperandHas(list[k], wide, q)
  }

  /** The one-byte and the two-byte references share no operand byte. */
  ghost predicate ListsApart(ldc: seq<int>, wide: seq<int>) {
    forall i, j :: 0 <= i < |ldc| && 0 <= j < |wide| && ldc[i] != -1 ==> !OperandHas(wide[j], true, ldc[i] + 1)
  }

  /** The table index held by the operand of the reference at `p`. */
  function Operand(code: seq<u8>, p: nat, wide: bool): (v: nat)
    requires if wide then p + 3 <= |code| else p + 2 <= |code|
  {
    if wide then GetUnsignedShort(code, p + 1) else code[p + 1]
  }

  /** The reference at `p` selects an entry of `table`. */
  predicate Selects(code: seq<u8>, table: seq<ConstantObject?>, p: nat, wide: bool)
    requires if wide then p + 3 <= |code| else p + 2 <= |code|
  {
    Operand(code, p, wide) < |table| && table[Operand(code, p, wide)] != null
  }

  ghost predicate AllSelect(code: seq<u8>, table: seq<ConstantObject?>, sites: seq<int>, wide: bool)
    requires ListOk(|code|, sites, wide)
  {
    forall i :: 0 <= i < |sites| && sites[i] != -1 ==> Selects(code, table, sites[i], wide)
  }

  /** The entries that the listed references select, in order. */
  ghost function Selected(code: seq<u8>, table: seq<ConstantObject?>, sites: seq<int>, wide: bool): (cs: seq<ConstantObject>)
    requires ListOk(|code|, sites, wide)
    requires AllSelect(code, table, sites, wide)
    ensures forall i :: 0 <= i < |cs| ==> cs[i] in table
    ensures forall i :: 0 <= i < |sites| && sites[i] != -1 ==> table[Operand(code, sites[i], wide)] in cs
  {
    if sites == [] then []
    else
      var rest := Selected(code, table, sites[..|sites| - 1], wide);
      var p := sites[|sites| - 1];
      assert sites == sites[..|sites| - 1] + [p];
      if p == -1 then rest else
        var c: ConstantObject? := table[Operand(code, p, wide)];
        assert rest + [c] == rest + [c as ConstantObject];
        rest + [c as ConstantObject]
  }

  /** Only entries selected by a listed reference are among them. */
  lemma {:induction false} SelectedByOne(code: seq<u8>, table: seq<ConstantObject?>, sites: seq<int>, wide: bool, c: ConstantObject)
    requires ListOk(|code|, sites, wide) && AllSelect(code, table, sites, wide)
    ensures c in Selected(code, table, sites, wide) <==>
            exists i :: 0 <= i < |sites| && sites[i] != -1 && table[Operand(code, sites[i], wide)] == c
  {
    if sites != [] {
      var rest, n := sites[..|sites| - 1], |sites| - 1;
      assert sites == rest + [sites[n]];
      SelectedByOne(code, table, rest, wide, c);
      if c in Selected(code, table, sites, wide) && c !in Selected(code, table, rest, wide) {
        assert sites[n] != -1 && table[Operand(code, sites[n], wide)] == c;
      }
    }
  }

  /** A method's code and where its one-byte and two-byte references stand. */
  datatype CodeView = CodeView(code: seq<u8>, ldc: seq<int>, wide: seq<int>)

  /** The site lists are in order and every listed operand selects an entry of `table`. */
  ghost predicate Countable(v: CodeView, table: seq<ConstantObject?>) {
    && ListOk(|v.code|, v.ldc, false)
    && ListOk(|v.code|, v.wide, true)
    && AllSelect(v.code, table, v.ldc, false)
    && AllSelect(v.code, table, v.wide, true)
  }

  /** The constants a method uses: those it holds, then those its code selects from `table`. */
  ghost function Counted(held: seq<ConstantObject>, v: CodeView, table: seq<ConstantObject?>): seq<ConstantObject>
    requires Countable(v, table)
  {
    held + Selected(v.code, table, v.ldc, false) + Selected(v.code, table, v.wide, true)
  }

  /** What a relocation reads of a table: each entry's index and whether it is shared. */
  datatype Marks = Marks(indices: seq<int>, shared: seq<bool>)

  /** What the source says about relocating a reference to the entry at place `k` of the table. */
  function Verdict(marks: Marks, k: nat, wide: bool): Relocation
    requires k < |marks.indices| == |marks.shared|
  {
    if marks.shared[k] then SharedConstant
    else if marks.indices[k] < 0 then DeletedConstant
    else if !wide && marks.indices[k] > 255 then LdcOutOfRange
    else Relocated
  }

  /** An entry, by its place in the table, that a reference may be relocated to. */
  predicate Relocatable(marks: Marks, k: nat, wide: bool) {
    k < |marks.indices| == |marks.shared| && Verdict(marks, k, wide) == Relocated
  }

  /** The entries selected by the first `n` listed references may be relocated to. */
  ghost predicate Relocatables(code: seq<u8>, marks: Marks, list: seq<int>, n: nat, wide: bool)
    requires ListOk(|code|, list, wide) && n <= |list|
  {
    forall i :: 0 <= i < n && list[i] != -1 ==> Relocatable(marks, Operand(code, list[i], wide), wide)
  }

  /** Every entry the code selects may be relocated to. */
  ghost predicate AllRelocatable(v: CodeView, marks: Marks) {
    && ListOk(|v.code|, v.ldc, false) && ListOk(|v.code|, v.wide, true)
    && Relocatables(v.code, marks, v.ldc, |v.ldc|, false)
    && Relocatables(v.code, marks, v.wide, |v.wide|, true)
  }

  ghost predicate MarksOf(table: seq<ConstantObject?>, marks: Marks)
    reads Entries(table)`index, Entries(table)`shared
  {
    && |marks.indices| == |marks.shared| == |table|
    && forall i :: 0 <= i < |table| && table[i] != null ==> table[i].index == marks.indices[i] && table[i].shared == marks.shared[i]
  }

  predicate ErrorAt(code: seq<u8>, marks: Marks, p: int, wide: bool, r: Relocation)
    requires SiteOk(|code|, p, wide) && |marks.shared| == |marks.indices|
  {
    p != -1 && Operand(code, p, wide) < |marks.indices| && r == Verdict(marks, Operand(code, p, wide), wide) != Relocated
  }

  /** `r` is what is wrong with the first listed reference that may not be relocated. */
  ghost predicate FirstError(code: seq<u8>, marks: Marks, list: seq<int>, wide: bool, r: Relocation)
    requires ListOk(|code|, list, wide) && |marks.shared| == |marks.indices|
  {
    exists i :: 0 <= i < |list| && Relocatables(code, marks, list, i, wide) && ErrorAt(code, marks, list[i], wide, r)
  }

  /** The operand at `p` in `after` is the new index of the entry selected by `before`'s, cut to two bytes. */
  predicate PatchedAt(before: seq<u8>, after: seq<u8>, indices: seq<int>, p: int, wide: bool)
    requires |after| == |before| && SiteOk(|before|, p, wide)
  {
    p != -1 ==>
      && Operand(before, p, wide) < |indices|
      && Operand(after, p, wide) == indices[Operand(before, p, wide)] % 0x1_0000
  }

  /** The first `n` listed operands have been patched. */
  ghost predicate Patched(before: seq<u8>, after: seq<u8>, indices: seq<int>, list: seq<int>, n: nat, wide: bool)
    requires ListOk(|before|, list, wide) && n <= |list|
  {
    |after| == |before| && forall i :: 0 <= i < n ==> PatchedAt(before, after, indices, list[i], wide)
  }

  /** Bytes outside the first `n` listed operands are as before. */
  ghost predicate OthersKept(before: seq<u8>, after: seq<u8>, list: seq<int>, n: nat, wide: bool)
    requires n <= |list|
  {
    |after| == |before| && forall q :: 0 <= q < |before| && !IsOperandByte(list, n, wide, q) ==> after[q] == before[q]
  }

  /** An operand not yet patched still reads as before. */
  lemma UnpatchedStands(c: seq<u8>, mid: seq<u8>, list: seq<int>, i: nat, wide: bool)
    requires i < |list| && list[i] != -1 && ListOk(|c|, list, wide)
    requires OthersKept(c, mid, list, i, wide)
    ensures Operand(mid, list[i], wide) == Operand(c, list[i], wide)
  {
    assert !IsOperandByte(list, i, wide, list[i] + 1);
    assert wide ==> !IsOperandByte(list, i, wide, list[i] + 2);
  }

  lemma PatchOne(c: seq<u8>, mid: seq<u8>, after: seq<u8>, indices: seq<int>, list: seq<int>, i: nat, wide: bool)
    requires i < |list| && list[i] != -1 && ListOk(|c|, list, wide)
    requires Patched(c, mid, indices, list, i, wide) && OthersKept(c, mid, list, i, wide)
    requires |after| == |c| && PatchedAt(c, after, indices, list[i], wide)
    requires forall q :: 0 <= q < |c| && !OperandHas(list[i], wide, q) ==> after[q] == mid[q]
    ensures Patched(c, after, indices, list, i + 1, wide) && OthersKept(c, after, list, i + 1, wide)
  {
    forall k | 0 <= k < i
      ensures PatchedAt(c, after, indices, list[k], wide)
    {
      assert PatchedAt(c, mid, indices, list[k], wide);
      assert Apart(list[k], list[i], wide);
    }
    forall q | 0 <= q < |c| && !IsOperandByte(list, i + 1, wide, q) ensures after[q] == c[q] {
      assert !OperandHas(list[i], wide, q);
      assert !IsOperandByte(list, i, wide, q);
    }
  }

  /** Only operand bytes of the listed sites differ. */
  ghost predicate BothKept(v: CodeView, after: seq<u8>) {
    |after| == |v.code| &&
    forall q :: 0 <= q < |after| && !IsOperandByte(v.ldc, |v.ldc|, false, q) && !IsOperandByte(v.wide, |v.wide|, true, q) ==>
      after[q] == v.code[q]
  }

  /** Every listed operand has been patched, and nothing else. */
  ghost predicate CodePatched(v: CodeView, after: seq<u8>, indices: seq<int>) {
    && ListOk(|v.code|, v.ldc, false) && ListOk(|v.code|, v.wide, true)
    && Patched(v.code, after, indices, v.ldc, |v.ldc|, false)
    && Patched(v.code, after, indices, v.wide, |v.wide|, true)
    && BothKept(v, after)
  }

  /** Patching the one-byte operands leaves the two-byte ones as they were. */
  lemma WidesStand(c: seq<u8>, mid: seq<u8>, ldc: seq<int>, wide: seq<int>)
    requires ListOk(|c|, ldc, false) && ListOk(|c|, wide, true) && ListsApart(ldc, wide)
    requires OthersKept(c, mid, ldc, |ldc|, false)
    ensures forall j :: 0 <= j < |wide| && wide[j] != -1 ==> Operand(mid, wide[j], true) == Operand(c, wide[j], true)
  {
    forall j | 0 <= j < |wide| && wide[j] != -1
      ensures Operand(mid, wide[j], true) == Operand(c, wide[j], true)
    {
      forall q | q == wide[j] + 1 || q == wide[j] + 2 ensures !IsOperandByte(ldc, |ldc|, false, q) {
        assert OperandHas(wide[j], true, q);
      }
      assert !IsOperandByte(ldc, |ldc|, false, wide[j] + 1) && !IsOperandByte(ldc, |ldc|, false, wide[j] + 2);
    }
  }

  /** Two-byte operands that stand are relocatable, or not, as before. */
  lemma SameErrors(c: seq<u8>, mid: seq<u8>, marks: Marks, wide: seq<int>)
    requires ListOk(|c|, wide, true) && |mid| == |c| && |marks.shared| == |marks.indices|
    requires forall j :: 0 <= j < |wide| && wide[j] != -1 ==> Operand(mid, wide[j], true) == Operand(c, wide[j], true)
    ensures Relocatables(mid, marks, wide, |wide|, true) == Relocatables(c, marks, wide, |wide|, true)
    ensures forall r :: FirstError(mid, marks, wide, true, r) == FirstError(c, marks, wide, true, r)
  {
    hide Verdict, Operand;
    forall i | 0 <= i <= |wide| ensures Relocatables(mid, marks, wide, i, true) == Relocatables(c, marks, wide, i, true) {
    }
    forall i, r | 0 <= i < |wide| ensures ErrorAt(mid, marks, wide[i], true, r) == ErrorAt(c, marks, wide[i], true, r) {
    }
    forall r ensures FirstError(mid, marks, wide, true, r) == FirstError(c, marks, wide, true, r) {
      if FirstError(mid, marks, wide, true, r) {
        var i :| 0 <= i < |wide| && Relocatables(mid, marks, wide, i, true) && ErrorAt(mid, marks, wide[i], true, r);
        assert Relocatables(c, marks, wide, i, true);
      }
      if FirstError(c, marks, wide, true, r) {
        var i :| 0 <= i < |wide| && Relocatables(c, marks, wide, i, true) && ErrorAt(c, marks, wide[i], true, r);
        assert Relocatables(mid, marks, wide, i, true);
      }
    }
  }

  /** Patching the two-byte operands leaves the patched one-byte ones as they are. */
  lemma LdcsStand(c: seq<u8>, mid: seq<u8>, after: seq<u8>, indices: seq<int>, ldc: seq<int>, wide: seq<int>)
    requires ListOk(|c|, ldc, false) && ListOk(|c|, wide, true) && ListsApart(ldc, wide)
    requires OthersKept(c, mid, ldc, |ldc|, false) && Patched(c, mid, indices, ldc, |ldc|, false)
    requires OthersKept(mid, after, wide, |wide|, true)
    ensures Patched(c, after, indices, ldc, |ldc|, false)
    ensures BothKept(CodeView(c, ldc, wide), after)
  {
    forall i | 0 <= i < |ldc| ensures PatchedAt(c, after, indices, ldc[i], false) {
      assert PatchedAt(c, mid, indices, ldc[i], false);
      if ldc[i] != -1 {
        assert !IsOperandByte(wide, |wide|, true, ldc[i] + 1);
      }
    }
  }

  /** The lists hold exactly the sites of their kind, at instruction boundaries only, in increasing order. */
  ghost predicate SitesFound(code: seq<u8>, ldc: seq<int>, wide: seq<int>)
    requires WellFormed(code, 0, |code|)
  {
    var starts := Starts(code, 0, |code|);
    && (forall p :: p in ldc <==> 0 <= p < |code| && p in starts && code[p] == LDC)
    && (forall p :: p in wide <==> 0 <= p < |code| && p in starts && IsWideRef(code[p]))
    && (forall i, j :: 0 <= i < j < |ldc| ==> ldc[i] < ldc[j])
    && (forall i, j :: 0 <= i < j < |wide| ==> wide[i] < wide[j])
  }

  lemma StartsInRange(code: seq<u8>, end: nat)
    requires WellFormed(code, 0, end) && end <= |code|
    ensures forall k :: 0 <= k < |Starts(code, 0, end)| ==> Starts(code, 0, end)[k] < |code|
  {
    StartsChain(code, 0, end);
    forall k | 0 <= k < |Starts(code, 0, end)| ensures Starts(code, 0, end)[k] < |code| {
      assert Link(code, Starts(code, 0, end), end, k);
    }
  }

  /** The references of one kind met by the walk before `end`. */
  ghost function Sites(code: seq<u8>, end: nat, wide: bool): seq<int>
    requires WellFormed(code, 0, end) && end <= |code|
  {
    StartsInRange(code, end);
    SelectSites(code, Starts(code, 0, end), wide)
  }

  lemma SitesExtend(code: seq<u8>, pc: nat)
    requires WellFormed(code, 0, pc) && Fits(code, pc) && !IsBadWide(code, pc)
    ensures var next := pc + OpcodeLength(code, pc);
            && OpcodeLength(code, pc) > 0
            && (code[pc] == LDC ==> next == pc + 2)
            && (IsWideRef(code[pc]) ==> pc + 3 <= next)
            && WellFormed(code, 0, next)
            && Sites(code, next, false) == Sites(code, pc, false) + (if code[pc] == LDC then [pc] else [])
            && Sites(code, next, true) == Sites(code, pc, true) + (if IsWideRef(code[pc]) then [pc] else [])
  {
    FitsIsPositive(code, pc);
    StartsExtend(code, 0, pc);
    var s := Starts(code, 0, pc + OpcodeLength(code, pc));
    assert s[..|s| - 1] == Starts(code, 0, pc);
  }

  /** Selecting by kind from the boundaries of well-formed code gives the sites of that kind. */
  lemma SitesAreExact(code: seq<u8>)
    requires WellFormed(code, 0, |code|)
    ensures SitesFound(code, Sites(code, |code|, false), Sites(code, |code|, true))
  {
    var starts := Starts(code, 0, |code|);
    StartsInRange(code, |code|);
    StartsChain(code, 0, |code|);
    forall i, j | 0 <= i < j < |starts| ensures starts[i] < starts[j] {
      StartsIncrease(code, 0, |code|, i, j);
      assert Link(code, starts, |code|, i);
    }
    SelectExact(code, starts, false);
    SelectExact(code, starts, true);
  }

  /** Well-formed code with the references at its instruction boundaries. */
  ghost function ScanView(code: seq<u8>): CodeView
    requires WellFormed(code, 0, |code|)
  {
    CodeView(code, Sites(code, |code|, false), Sites(code, |code|, true))
  }

  // ------------------------------------------------------------ the class

  class MethodInfo {
    var code: array?<u8>
    /** Where the one-byte and the two-byte references stand; empty until they have been looked for. */
    var ldcInstructions: seq<int>
    var wideConstantRefInstructions: seq<int>
    var exceptionTable: seq<ExceptionEntry>
    /** The entries the method holds by object reference: its name, its type and its attributes' names. */
    var held: seq<ConstantObject>

    constructor (code: array?<u8>, held: seq<ConstantObject>, exceptionTable: seq<ExceptionEntry>)
      ensures this.code == code && this.held == held && this.exceptionTable == exceptionTable
      ensures ldcInstructions == [] && wideConstantRefInstructions == []
    {
      this.code, this.held, this.exceptionTable := code, held, exceptionTable;
      ldcInstructions, wideConstantRefInstructions := [], [];
    }

    /** Steps over a switch or a widened instruction, whose lengths the table does not hold. */
    method SkipVariable(pc: nat) returns (next: nat)
      requires code != null && Fits(code[..], pc)
      requires IsSwitch(code[pc]) || code[pc] == WIDE
      ensures next == pc + OpcodeLength(code[..], pc)
    {
      if code[pc] == TABLESWITCH {
        var i := Align(pc);
        var low := GetInt(code[..], i + 4);
        var high := GetInt(code[..], i + 8);
        next := i + (high - low + 1) * 4 + 12;
      } else if code[pc] == LOOKUPSWITCH {
        var i := Align(pc);
        var pairs := GetInt(code[..], i + 4);
        next := i + pairs * 8 + 8;
      } else {
        next := pc + (if code[pc + 1] == IINC then 6 else 4);
      }
    }

    /** One turn of the scan: notes the instruction at `pc` if it is a reference, and steps over it. */
    method ScanInstruction(pc: nat, ldc: array<int>, nldc: nat, wide: array<int>, nwide: nat)
      returns (next: nat, nldc': nat, nwide': nat)
      requires code != null && Fits(code[..], pc) && !IsBadWide(code[..], pc)
      requires ldc != wide && ldc as object != code && wide as object != code
      requires nldc <= ldc.Length && (code[pc] == LDC ==> nldc < ldc.Length)
      requires nwide <= wide.Length && (IsWideRef(code[pc]) ==> nwide < wide.Length)
      modifies ldc, wide
      ensures next == pc + OpcodeLength(code[..], pc)
      ensures nldc' == nldc + (if code[pc] == LDC then 1 else 0)
      ensures nwide' == nwide + (if IsWideRef(code[pc]) then 1 else 0)
      ensures ldc[..nldc'] == old(ldc[..nldc]) + (if code[pc] == LDC then [pc] else [])
      ensures wide[..nwide'] == old(wide[..nwide]) + (if IsWideRef(code[pc]) then [pc] else [])
    {
      nldc', nwide' := nldc, nwide;
      var opcode := code[pc];
      if IsSwitch(opcode) || opcode == WIDE {
        next := SkipVariable(pc);
      } else {
        if opcode == LDC {
          ldc[nldc] := pc;
          nldc' := nldc + 1;
        } else if IsWideRef(opcode) {
          wide[nwide] := pc;
          nwide' := nwide + 1;
        }
        next := pc + OpcLength(opcode);
      }
    }

    /** The code and its site lists; those of a method without code are empty. */
    ghost function View(): CodeView
      reads this, code
    {
      if code == null then CodeView([], [], []) else CodeView(code[..], ldcInstructions, wideConstantRefInstructions)
    }

    method FindConstantReferences() returns (ok: bool)
      requires code != null ==> Scannable(code[..], 0)
      modifies this`ldcInstructions, this`wideConstantRefInstructions
      ensures code == null ==> ok
      ensures code != null ==> (ok <==> WellFormed(code[..], 0, code.Length))
      ensures !ok || code == null ==> ldcInstructions == old(ldcInstructions) && wideConstantRefInstructions == old(wideConstantRefInstructions)
      ensures ok && code != null ==> View() == ScanView(code[..]) && SitesFound(code[..], ldcInstructions, wideConstantRefInstructions)
    {
      if code == null {
        return true;
      }
      var ldc := new int[code.Length / 2];
      var wide := new int[code.Length / 3];
      var nldc, nwide := 0, 0;
      var ncode := code.Length;
      var i := 0;
      ghost var c := code[..];
      while i < ncode
        invariant 0 <= i <= ncode && c == code[..]
        invariant ldcInstructions == old(ldcInstructions) && wideConstantRefInstructions == old(wideConstantRefInstructions)
        invariant WellFormed(c, 0, i) && Scannable(c, i)
        invariant 0 <= nldc && 0 <= nwide && 2 * nldc + 3 * nwide <= i
        invariant nldc <= ldc.Length && nwide <= wide.Length
        invariant ldc[..nldc] == Sites(c, i, false)
        invariant wide[..nwide] == Sites(c, i, true)
        decreases ncode - i
      {
        if code[i] == WIDE && !IsWidened(code[i + 1]) {
          if WellFormed(c, 0, ncode) {
            WalkSplits(c, 0, i, ncode);
            assert false;
          }
          return false;
        }
        SitesExtend(c, i);
        i, nldc, nwide := ScanInstruction(i, ldc, nldc, wide, nwide);
      }
      SitesAreExact(c);
      ldcInstructions := ldc[..nldc];
      wideConstantRefInstructions := wide[..nwide];
      return true;
    }

    /** The code is well formed and the lists are what the scan finds in it. */
    ghost predicate Scanned()
      reads this, code
    {
      code != null ==> WellFormed(code[..], 0, code.Length) && View() == ScanView(code[..])
    }

    method CountSites(table: seq<ConstantObject?>, list: seq<int>, wide: bool, ghost g: Graph)
      requires code != null && Closed(g) && Drawn(g)
      requires ListOk(code.Length, list, wide)
      requires AllSelect(code[..], table, list, wide)
      requires TableWithin(table, g)
      modifies g.Keys`references
      ensures forall o <- g :: o.references == old(o.references) + UsesAll(g, Selected(code[..], table, list, wide), o)
    {
      for i := 0 to |list|
        invariant forall o <- g :: o.references == old(o.references) + UsesAll(g, Selected(code[..], table, list[..i], wide), o)
      {
        assert list[..i + 1][..i] == list[..i];
        var loc := list[i];
        if loc != -1 {
          table[Operand(code[..], loc, wide)].IncReference(g);
        }
      }
      assert list[..|list|] == list;
    }

    method CountCode(table: seq<ConstantObject?>, ghost g: Graph)
      requires code != null && Countable(View(), table) && Closed(g) && Drawn(g)
      requires TableWithin(table, g)
      modifies g.Keys`references
      ensures forall o <- g ::
                o.references == old(o.references)
                                + UsesAll(g, Selected(code[..], table, ldcInstructions, false), o)
                                + UsesAll(g, Selected(code[..], table, wideConstantRefInstructions, true), o)
    {
      CountSites(table, ldcInstructions, false, g);
      CountSites(table, wideConstantRefInstructions, true, g);
    }

    method CountConstantReferences(table: seq<ConstantObject?>, ghost g: Graph)
      requires Countable(View(), table) && Closed(g) && Drawn(g)
      requires Within(held, g)
      requires TableWithin(table, g)
      modifies g.Keys`references
      ensures Within(Counted(held, View(), table), g)
      ensures forall o <- g :: o.references == old(o.references) + UsesAll(g, Counted(held, View(), table), o)
    {
      CountList(held, g);
      if code == null {
        assert held + [] + [] == held;
        return;
      }
      CountCode(table, g);
      UsesAllThree(g, held, Selected(code[..], table, ldcInstructions, false),
                   Selected(code[..], table, wideConstantRefInstructions, true));
    }

    /** Stores an index into the operand of the instruction at `loc`: one byte, or a short. */
    method PutOperand(loc: nat, v: nat, wide: bool)
      requires code != null && SiteOk(code.Length, loc, wide) && (wide || v <= 255)
      modifies code
      ensures Operand(code[..], loc, wide) == v % 0x1_0000
      ensures forall q :: 0 <= q < code.Length && !OperandHas(loc, wide, q) ==> code[q] == old(code[q])
    {
      if wide {
        code[loc + 1] := v / 256 % 256;
        code[loc + 2] := v % 256;
      } else {
        code[loc + 1] := v;
      }
    }

    method RelocateSites(table: seq<ConstantObject?>, ghost marks: Marks, list: seq<int>, wide: bool) returns (r: Relocation)
      requires code != null && ListOk(code.Length, list, wide)
      requires AllSelect(code[..], table, list, wide) && MarksOf(table, marks)
      modifies code
      ensures r == Relocated <==> Relocatables(old(code[..]), marks, list, |list|, wide)
      ensures r != Relocated ==> FirstError(old(code[..]), marks, list, wide, r)
      ensures r == Relocated ==> Patched(old(code[..]), code[..], marks.indices, list, |list|, wide)
      ensures OthersKept(old(code[..]), code[..], list, |list|, wide)
    {
      ghost var c := code[..];
      for i := 0 to |list|
        invariant Relocatables(c, marks, list, i, wide)
        invariant Patched(c, code[..], marks.indices, list, i, wide)
        invariant OthersKept(c, code[..], list, i, wide)
      {
        var loc := list[i];
        if loc != -1 {
          UnpatchedStands(c, code[..], list, i, wide);
          var o := table[Operand(code[..], loc, wide)];
          var v := o.index;
          if o.shared {
            r := SharedConstant;
          } else if v < 0 {
            r := DeletedConstant;
          } else if !wide && v > 255 {
            r := LdcOutOfRange;
          } else {
            r := Relocated;
          }
          assert r == Verdict(marks, Operand(c, loc, wide), wide);
          if r != Relocated {
            assert ErrorAt(c, marks, list[i], wide, r);
            return;
          }
          ghost var mid := code[..];
          PutOperand(loc, v, wide);
          PatchOne(c, mid, code[..], marks.indices, list, i, wide);
        }
      }
      return Relocated;
    }

    method RelocateConstantReferences(table: seq<ConstantObject?>, ghost marks: Marks) returns (r: Relocation)
      requires Countable(View(), table) && MarksOf(table, marks)
      requires ListsApart(View().ldc, View().wide)
      modifies code
      ensures r == Relocated <==> AllRelocatable(old(View()), marks)
      ensures r != Relocated ==>
                var v := old(View());
                if Relocatables(v.code, marks, v.ldc, |v.ldc|, false) then FirstError(v.code, marks, v.wide, true, r)
                else FirstError(v.code, marks, v.ldc, false, r)
      ensures r == Relocated ==> CodePatched(old(View()), View().code, marks.indices)
      ensures BothKept(old(View()), View().code)
    {
      if code == null {
        return Relocated;
      }
      ghost var c := code[..];
      r := RelocateSites(table, marks, ldcInstructions, false);
      if r != Relocated {
        return;
      }
      ghost var mid := code[..];
      WidesStand(c, mid, ldcInstructions, wideConstantRefInstructions);
      SameErrors(c, mid, marks, wideConstantRefInstructions);
      hide FirstError, Relocatables;
      r := RelocateSites(table, marks, wideConstantRefInstructions, true);
      LdcsStand(c, mid, code[..], marks.indices, ldcInstructions, wideConstantRefInstructions);
    }

    /** No handler range begins or ends inside the stretch. */
    predicate ReplacementAllowed(start: int, end: int, bytes: seq<u8>)
      reads this`exceptionTable
    {
      && |bytes| <= end - start
      && forall i :: 0 <= i < |exceptionTable| ==>
           !(start <= exceptionTable[i].startPC < end) && !(start <= exceptionTable[i].endPC < end)
    }

    /** Puts `bytes` where the instructions from `start` to `end` are, and `nop` after them, unless that is not allowed. */
    method ReplaceCode(start: int, end: int, bytes: seq<u8>)
      requires code != null && (|bytes| <= end - start ==> 0 <= start && end <= code.Length)
      modifies code
      ensures code[..] == if ReplacementAllowed(start, end, bytes) then Spliced(old(code[..]), start, end, bytes) else old(code[..])
    {
      if end - start < |bytes| {
        return;
      }
      for i := 0 to |exceptionTable|
        invariant code[..] == old(code[..])
        invariant forall k :: 0 <= k < i ==>
                    !(start <= exceptionTable[k].startPC < end) && !(start <= exceptionTable[k].endPC < end)
      {
        var startPC, endPC := exceptionTable[i].startPC, exceptionTable[i].endPC;
        if start <= startPC < end {
          return;
        }
        if start <= endPC < end {
          return;
        }
      }
      ghost var c := code[..];
      var startExtra := start + |bytes|;
      for i := 0 to |bytes|
        invariant forall q :: 0 <= q < code.Length ==> code[q] == if start <= q < start + i then bytes[q - start] else c[q]
      {
        code[start + i] := bytes[i];
      }
      for i := startExtra to end
        invariant forall q :: 0 <= q < code.Length ==>
                    code[q] == if start <= q < startExtra then bytes[q - start] else if startExtra <= q < i then 0 else c[q]
      {
        code[i] := 0;
      }
      assert code[..] == Spliced(c, start, end, bytes);
    }

    method SwitchTargets(pc: nat, nextpc: nat) returns (result: set<int>)
      requires code != null && Fits(code[..], pc) && IsSwitch(code[pc]) && nextpc == pc + OpcodeLength(code[..], pc)
      ensures forall t :: t in result <==> IsTargetFrom(code[..], pc, t)
    {
      ghost var c := code[..];
      SwitchEnd(c, pc);
      var i := Align(pc);
      var delta := if code[pc] == TABLESWITCH then 4 else 8;
      result := {Signed32(pc + GetInt(code[..], i))};
      i := i + 12;
      ghost var k := 0;
      while i < nextpc
        invariant 0 <= k <= SwitchCount(c, pc) && i == Align(pc) + 12 + delta * k
        invariant forall t :: t in result <==> t == Signed32(pc + GetInt(c, Align(pc))) || exists j :: 0 <= j < k && t == SwitchTarget(c, pc, j)
        decreases nextpc - i
      {
        assert Signed32(pc + GetInt(c, i)) == SwitchTarget(c, pc, k);
        result := result + {Signed32(pc + GetInt(code[..], i))};
        i := i + delta;
        k := k + 1;
      }
    }

    /** The targets of one instruction. */
    method TargetsAt(pc: nat, nextpc: nat) returns (ok: bool, result: set<int>)
      requires code != null && Fits(code[..], pc) && nextpc == pc + OpcodeLength(code[..], pc)
      ensures ok <==> forall t :: IsTargetFrom(code[..], pc, t) ==> t >= 0
      ensures ok ==> forall t :: t in result <==> IsTargetFrom(code[..], pc, t)
    {
      result := {};
      var opcode := code[pc];
      if IsSwitch(opcode) {
        result := SwitchTargets(pc, nextpc);
      } else if IsShortJump(opcode) {
        if opcode == JSR {
          result := result + {Signed32(pc + 3)};
        }
        result := result + {Signed32(pc + GetShort(code[..], pc + 1))};
      } else if IsLongJump(opcode) {
        if opcode == JSR_W {
          result := result + {Signed32(pc + 5)};
        }
        result := result + {Signed32(pc + GetInt(code[..], pc + 1))};
      }
      assert forall t :: t in result <==> IsTargetFrom(code[..], pc, t);
      ok := forall t <- result :: t >= 0;
    }

    /** The positions that jumps, switches and subroutine returns lead to; fails if one of them is negative. */
    method GetLabelTargets() returns (ok: bool, result: set<int>)
      requires code != null && WellFormed(code[..], 0, code.Length)
      ensures ok <==> forall t :: IsTarget(code[..], code.Length, t) ==> t >= 0
      ensures ok ==> forall t :: t in result <==> IsTarget(code[..], code.Length, t)
    {
      ghost var c := code[..];
      result := {};
      var pc := 0;
      while pc < code.Length
        invariant 0 <= pc <= code.Length && WellFormed(c, 0, pc) && WellFormed(c, pc, code.Length)
        invariant forall t :: t in result <==> IsTarget(c, pc, t)
        invariant forall t <- result :: t >= 0
        decreases code.Length - pc
      {
        var nextpc := pc + OpcodeLength(code[..], pc);
        TargetsOfAll(c, pc);
        WalkJoins(c, 0, nextpc, code.Length);
        var good, more := TargetsAt(pc, nextpc);
        if !good {
          ghost var t :| IsTargetFrom(c, pc, t) && t < 0;
          assert IsTarget(c, nextpc, t);
          TargetsStay(c, nextpc, code.Length, t);
          return false, result;
        }
        result := result + more;
        pc := nextpc;
      }
      ok := true;
    }
  }

  lemma BoundaryFits(code: seq<u8>, p: nat)
    requires WellFormed(code, 0, |code|) && p in Starts(code, 0, |code|)
    ensures Fits(code, p) && !IsBadWide(code, p) && OpcodeLength(code, p) > 0
    ensures code[p] == LDC ==> p + 2 <= |code|
    ensures IsWideRef(code[p]) ==> p + 3 <= |code|
  {
    StartsChain(code, 0, |code|);
    var s := Starts(code, 0, |code|);
    var k :| 0 <= k < |s| && s[k] == p;
    assert Link(code, s, |code|, k);
    FitsIsPositive(code, p);
  }

  /** Of two different instructions, one ends before the other begins. */
  lemma BoundariesApart(code: seq<u8>, p: nat, q: nat)
    requires WellFormed(code, 0, |code|) && p in Starts(code, 0, |code|) && q in Starts(code, 0, |code|)
    ensures Fits(code, p) && Fits(code, q)
    ensures p == q || p + OpcodeLength(code, p) <= q || q + OpcodeLength(code, q) <= p
    ensures code[p] == LDC ==> OpcodeLength(code, p) == 2
    ensures IsWideRef(code[p]) ==> OpcodeLength(code, p) >= 3
    ensures IsWideRef(code[q]) ==> OpcodeLength(code, q) >= 3
  {
    BoundaryFits(code, p);
    BoundaryFits(code, q);
    FitsIsPositive(code, p);
    FitsIsPositive(code, q);
    var s := Starts(code, 0, |code|);
    var i :| 0 <= i < |s| && s[i] == p;
    var j :| 0 <= j < |s| && s[j] == q;
    if i < j {
      StartsIncrease(code, 0, |code|, i, j);
    } else if j < i {
      StartsIncrease(code, 0, |code|, j, i);
    }
  }

  /** The sites that the scan finds overlap nowhere. */
  lemma FoundSitesAreOk(code: seq<u8>, ldc: seq<int>, wide: seq<int>)
    requires WellFormed(code, 0, |code|) && SitesFound(code, ldc, wide)
    ensures ListOk(|code|, ldc, false) && ListOk(|code|, wide, true) && ListsApart(ldc, wide)
    ensures forall i :: 0 <= i < |ldc| ==> ldc[i] >= 0
    ensures forall i :: 0 <= i < |wide| ==> wide[i] >= 0
  {
    forall i | 0 <= i < |ldc| ensures 0 <= ldc[i] && ldc[i] + 2 <= |code| {
      assert ldc[i] in ldc;
      BoundaryFits(code, ldc[i]);
    }
    forall i | 0 <= i < |wide| ensures 0 <= wide[i] && wide[i] + 3 <= |code| {
      assert wide[i] in wide;
      BoundaryFits(code, wide[i]);
    }
    forall i, j | 0 <= i < j < |wide| ensures Apart(wide[i], wide[j], true) {
      assert wide[i] in wide && wide[j] in wide;
      BoundariesApart(code, wide[i], wide[j]);
    }
    forall i, j | 0 <= i < |ldc| && 0 <= j < |wide| ensures !OperandHas(wide[j], true, ldc[i] + 1) {
      assert ldc[i] in ldc && wide[j] in wide;
      BoundariesApart(code, ldc[i], wide[j]);
    }
  }
}
