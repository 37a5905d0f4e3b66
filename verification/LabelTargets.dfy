/**
 Which positions of a method's code can be jumped to, and what replacing a stretch of
 instructions leaves in place.
 */
module LabelTargets {
  import opened Bytecode

  /** A conditional or unconditional jump with a two-byte offset. */
  predicate IsShortJump(op: u8) {
    IFEQ <= op <= JSR || op == IFNULL || op == IFNONNULL
  }

  predicate IsLongJump(op: u8) {
    op == GOTO_W || op == JSR_W
  }

  /** By number, the jumps: those with a two-byte offset, and `goto_w` and `jsr_w` with four bytes. */
  lemma JumpsByNumber(op: u8)
    ensures IsShortJump(op) <==>
            op in {153, 154, 155, 156, 157, 158, 159, 160, 161, 162, 163, 164, 165, 166, 167, 168, 198, 199}
    ensures IsLongJump(op) <==> op in {200, 201}
  {
  }

  /** How many explicit targets the switch at `pc` lists, besides its default. */
  function SwitchCount(code: seq<u8>, pc: nat): (n: nat)
    requires Fits(code, pc) && IsSwitch(code[pc])
  {
    if code[pc] == TABLESWITCH then GetInt(code, Align(pc) + 8) - GetInt(code, Align(pc) + 4) + 1
    else GetInt(code, Align(pc) + 4)
  }

  lemma SwitchEnd(code: seq<u8>, pc: nat)
    requires Fits(code, pc) && IsSwitch(code[pc])
    ensures pc + OpcodeLength(code, pc) ==
            Align(pc) + (if code[pc] == TABLESWITCH then 12 + 4 * SwitchCount(code, pc) else 8 + 8 * SwitchCount(code, pc))
    ensures Align(pc) + 8 <= pc + OpcodeLength(code, pc) <= |code|
  {
  }

  /** The `k`-th explicit target of the switch at `pc`: offset `k` of a table, or the offset of pair `k`. */
  function SwitchTarget(code: seq<u8>, pc: nat, k: nat): int
    requires Fits(code, pc) && IsSwitch(code[pc]) && k < SwitchCount(code, pc)
  {
    SwitchEnd(code, pc);
    Signed32(pc + GetInt(code, if code[pc] == TABLESWITCH then Align(pc) + 12 + 4 * k else Align(pc) + 8 + 8 * k + 4))
  }

  /** In a table the offsets follow one another; in a list of pairs each follows the value that it is for. */
  lemma SwitchReads(code: seq<u8>, pc: nat, k: nat, key: int, offset: int)
    requires Fits(code, pc) && IsSwitch(code[pc]) && k < SwitchCount(code, pc) && -0x8000_0000 <= offset < 0x8000_0000
    requires var a := Align(pc) + (if code[pc] == TABLESWITCH then 12 + 4 * k else 8 + 8 * k);
             var bytes := if code[pc] == TABLESWITCH then Int4(offset) else Int4(key) + Int4(offset);
             a + |bytes| <= |code| && code[a..a + |bytes|] == bytes
    ensures SwitchTarget(code, pc, k) == Signed32(pc + offset)
  {
    hide Int4, GetInt, Signed32;
    SwitchEnd(code, pc);
    if code[pc] == TABLESWITCH {
      ReadsInt4(code, Align(pc) + 12 + 4 * k, offset);
    } else {
      var a := Align(pc) + 8 + 8 * k;
      assert code[a + 4..a + 8] == code[a..a + 8][4..] == Int4(offset);
      ReadsInt4(code, a + 4, offset);
    }
  }

  /**
   Where control may go from the instruction at `pc` other than by falling through, as a Java `int`; a `jsr` also
   marks its return point.
   */
  ghost predicate IsTargetFrom(code: seq<u8>, pc: nat, t: int)
    requires Fits(code, pc)
  {
    var op := code[pc];
    if IsSwitch(op) then
      SwitchEnd(code, pc);
      t == Signed32(pc + GetInt(code, Align(pc))) || exists k :: 0 <= k < SwitchCount(code, pc) && t == SwitchTarget(code, pc, k)
    else if IsShortJump(op) then
      t == Signed32(pc + GetShort(code, pc + 1)) || (op == JSR && t == Signed32(pc + 3))
    else if IsLongJump(op) then
      t == Signed32(pc + GetInt(code, pc + 1)) || (op == JSR_W && t == Signed32(pc + 5))
    else
      false
  }

  /** An instruction other than a switch leads where its offset says; `jsr` and `jsr_w` also name the instruction after them. */
  lemma JumpReads(code: seq<u8>, pc: nat, offset: int, t: int)
    requires Fits(code, pc) && !IsSwitch(code[pc])
    requires IsShortJump(code[pc]) ==> code[pc + 1..pc + 3] == Int2(offset) && -0x8000 <= offset < 0x8000
    requires IsLongJump(code[pc]) ==> code[pc + 1..pc + 5] == Int4(offset) && -0x8000_0000 <= offset < 0x8000_0000
    ensures IsTargetFrom(code, pc, t) <==>
            || (code[pc] == 168 && t == Signed32(pc + 3)) || (code[pc] == 201 && t == Signed32(pc + 5))
            || ((IsShortJump(code[pc]) || IsLongJump(code[pc])) && t == Signed32(pc + offset))
  {
    hide Int2, Int4, GetShort, GetInt, Signed32;
    if IsShortJump(code[pc]) {
      ReadsInt2(code, pc + 1, offset);
    } else if IsLongJump(code[pc]) {
      ReadsInt4(code, pc + 1, offset);
    }
  }

  /** A long jump by 2^31 - 1 from position 1 leads to a negative position. */
  lemma TargetWraps()
    ensures var code: seq<u8> := [0, GOTO_W, 0x7f, 0xff, 0xff, 0xff];
            WellFormed(code, 0, |code|) && Fits(code, 1) && IsTargetFrom(code, 1, -0x8000_0000)
  {
    var code: seq<u8> := [0, GOTO_W, 0x7f, 0xff, 0xff, 0xff];
    assert OpcodeLength(code, 0) == 1 && OpcodeLength(code, 1) == 5;
    assert WellFormed(code, 6, 6) && WellFormed(code, 1, 6);
    assert GetInt(code, 2) == 0x7fff_ffff;
  }

  /** `t` is a target from one of the boundaries before `end`. */
  ghost predicate IsTarget(code: seq<u8>, end: nat, t: int)
    requires WellFormed(code, 0, end) && end <= |code|
  {
    exists pc :: pc in Starts(code, 0, end) && Fits(code, pc) && IsTargetFrom(code, pc, t)
  }

  lemma {:induction false} TargetsStay(code: seq<u8>, mid: nat, end: nat, t: int)
    requires WellFormed(code, 0, mid) && WellFormed(code, 0, end) && mid <= end <= |code| && IsTarget(code, mid, t)
    ensures IsTarget(code, end, t)
  {
    WalkSplits(code, 0, mid, end);
    var q :| q in Starts(code, 0, mid) && Fits(code, q) && IsTargetFrom(code, q, t);
    assert q in Starts(code, 0, end);
  }

  lemma TargetsExtend(code: seq<u8>, pc: nat, t: int)
    requires WellFormed(code, 0, pc) && Fits(code, pc) && !IsBadWide(code, pc) && OpcodeLength(code, pc) > 0
    ensures WellFormed(code, 0, pc + OpcodeLength(code, pc))
    ensures IsTarget(code, pc + OpcodeLength(code, pc), t) <==> IsTarget(code, pc, t) || IsTargetFrom(code, pc, t)
  {
    StartsExtend(code, 0, pc);
    if IsTarget(code, pc, t) {
      var q :| q in Starts(code, 0, pc) && Fits(code, q) && IsTargetFrom(code, q, t);
      assert q in Starts(code, 0, pc + OpcodeLength(code, pc));
    }
    assert pc in Starts(code, 0, pc + OpcodeLength(code, pc));
  }

  lemma TargetsOfAll(code: seq<u8>, pc: nat)
    requires WellFormed(code, 0, pc) && Fits(code, pc) && !IsBadWide(code, pc) && OpcodeLength(code, pc) > 0
    ensures WellFormed(code, 0, pc + OpcodeLength(code, pc))
    ensures forall t :: IsTarget(code, pc + OpcodeLength(code, pc), t) <==> IsTarget(code, pc, t) || IsTargetFrom(code, pc, t)
  {
    StartsExtend(code, 0, pc);
    forall t ensures IsTarget(code, pc + OpcodeLength(code, pc), t) <==> IsTarget(code, pc, t) || IsTargetFrom(code, pc, t) {
      TargetsExtend(code, pc, t);
    }
  }

  // ------------------------------------------------------------ replacement

  /** `code` with the bytes from `start` to `end` replaced by `bytes` and padded with `nop`. */
  function Spliced(code: seq<u8>, start: nat, end: nat, bytes: seq<u8>): (r: seq<u8>)
    requires start + |bytes| <= end <= |code|
    ensures |r| == |code|
    ensures forall q :: 0 <= q < |code| ==> r[q] == (if start <= q < start + |bytes| then bytes[q - start]
                                                     else if start <= q < end then 0 else code[q])
  {
    code[..start] + bytes + seq(end - start - |bytes|, _ => 0) + code[end..]
  }

  lemma {:induction false} StartsWithin(code: seq<u8>, from: nat, upto: nat, k: nat)
    requires WellFormed(code, from, upto) && k < |Starts(code, from, upto)|
    ensures from <= Starts(code, from, upto)[k] < upto
  {
    StartsChain(code, from, upto);
    assert Link(code, Starts(code, from, upto), upto, k);
    if k > 0 {
      StartsWithin(code, from, upto, k - 1);
      assert Link(code, Starts(code, from, upto), upto, k - 1);
    }
  }

  /** A stretch of instructions whose bytes are unchanged is walked as before. */
  lemma SameStretch(code: seq<u8>, other: seq<u8>, from: nat, upto: nat)
    requires WellFormed(code, from, upto) && |other| == |code| && upto <= |code|
    requires forall q :: from <= q < upto ==> other[q] == code[q]
    ensures WellFormed(other, from, upto) && Starts(other, from, upto) == Starts(code, from, upto)
  {
    StartsChain(code, from, upto);
    var s := Starts(code, from, upto);
    forall p | p in s ensures SameLength(code, other, p) {
      var k :| 0 <= k < |s| && s[k] == p;
      assert Link(code, s, upto, k);
      StartsWithin(code, from, upto, k);
      if k + 1 < |s| {
        StartsWithin(code, from, upto, k + 1);
      }
      SliceDecides(code, other, p);
    }
    WalkDependsOn(code, other, from, upto);
  }

  /** Every byte of a run of `nop` is an instruction. */
  lemma {:induction false} NopsWalk(code: seq<u8>, from: nat, upto: nat)
    requires from <= upto <= |code| && forall q :: from <= q < upto ==> code[q] == 0
    ensures WellFormed(code, from, upto)
    ensures forall p :: p in Starts(code, from, upto) <==> from <= p < upto
    decreases upto - from
  {
    if from < upto {
      NopsWalk(code, from + 1, upto);
      assert OpcodeLength(code, from) == 1;
    }
  }

  /** A walk through two aligned points, seen in three parts. */
  lemma ThreeStretches(code: seq<u8>, start: nat, end: nat)
    requires start <= end <= |code|
    requires WellFormed(code, 0, start) && WellFormed(code, start, end) && WellFormed(code, end, |code|)
    ensures WellFormed(code, 0, |code|)
    ensures forall p :: p < start ==> (p in Starts(code, 0, |code|) <==> p in Starts(code, 0, start))
    ensures forall p :: end <= p ==> (p in Starts(code, 0, |code|) <==> p in Starts(code, end, |code|))
  {
    WalkJoins(code, 0, start, end);
    WalkJoins(code, 0, end, |code|);
    WalkSplits(code, 0, start, end);
    WalkSplits(code, 0, end, |code|);
    forall p | p in Starts(code, 0, start) ensures p < start {
      var k :| 0 <= k < |Starts(code, 0, start)| && Starts(code, 0, start)[k] == p;
      StartsWithin(code, 0, start, k);
    }
    forall p | p in Starts(code, start, end) ensures start <= p < end {
      var k :| 0 <= k < |Starts(code, start, end)| && Starts(code, start, end)[k] == p;
      StartsWithin(code, start, end, k);
    }
    forall p | p in Starts(code, end, |code|) ensures end <= p {
      var k :| 0 <= k < |Starts(code, end, |code|)| && Starts(code, end, |code|)[k] == p;
      StartsWithin(code, end, |code|, k);
    }
  }

  /**
   Replacing an instruction-aligned stretch by bytes that are well formed where they are put keeps
   the code well formed and every instruction boundary outside the stretch.
   */
  lemma SplicedKeepsBoundaries(code: seq<u8>, start: nat, end: nat, bytes: seq<u8>)
    requires start + |bytes| <= end <= |code|
    requires WellFormed(code, 0, start) && WellFormed(code, start, end) && WellFormed(code, end, |code|)
    requires WellFormed(Spliced(code, start, end, bytes), start, start + |bytes|)
    ensures var r := Spliced(code, start, end, bytes);
            && WellFormed(code, 0, |code|) && WellFormed(r, 0, |code|)
            && forall p :: p < start || end <= p ==> (p in Starts(r, 0, |code|) <==> p in Starts(code, 0, |code|))
  {
    hide OpcodeLength, Fits, IsBadWide;
    var r, mid := Spliced(code, start, end, bytes), start + |bytes|;
    SameStretch(code, r, 0, start);
    SameStretch(code, r, end, |code|);
    NopsWalk(r, mid, end);
    ThreeStretches(code, start, end);
    WalkJoins(r, start, mid, end);
    ThreeStretches(r, start, end);
  }

  /** An instruction outside the stretch ends outside it. */
  lemma EndsBy(code: seq<u8>, start: nat, end: nat, p: nat)
    requires start <= end <= |code| && Fits(code, p)
    requires WellFormed(code, 0, start) && WellFormed(code, start, end) && WellFormed(code, end, |code|)
    requires WellFormed(code, 0, |code|) && p in Starts(code, 0, |code|) && (p < start || end <= p)
    ensures !IsBadWide(code, p)
    ensures p < start ==> p + OpcodeLength(code, p) <= start
  {
    ThreeStretches(code, start, end);
    var a, b := if p < start then 0 else end, if p < start then start else |code|;
    var s := Starts(code, a, b);
    assert p in s;
    var k :| 0 <= k < |s| && s[k] == p;
    StartsChain(code, a, b);
    assert Link(code, s, b, k);
    if k + 1 < |s| {
      StartsWithin(code, a, b, k + 1);
    }
  }

  /** Such a replacement leaves every instruction outside the stretch as it was. */
  lemma SplicedKeepsInstructions(code: seq<u8>, start: nat, end: nat, bytes: seq<u8>, p: nat)
    requires start + |bytes| <= end <= |code| && WellFormed(code, 0, |code|)
    requires WellFormed(code, 0, start) && WellFormed(code, start, end) && WellFormed(code, end, |code|)
    requires p in Starts(code, 0, |code|) && (p < start || end <= p) && Fits(code, p)
    ensures var r := Spliced(code, start, end, bytes);
            && Fits(r, p) && OpcodeLength(r, p) == OpcodeLength(code, p)
            && r[p..p + OpcodeLength(r, p)] == code[p..p + OpcodeLength(code, p)]
  {
    EndsBy(code, start, end, p);
    SliceDecides(code, Spliced(code, start, end, bytes), p);
  }
}
