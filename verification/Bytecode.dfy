/**
 Java bytecode as `jcc` reads it: the opcode numbers and instruction lengths, the
 big-endian operand readers, and the walk from one instruction to the next.
 Everything here is about a sequence of bytes; the methods that scan and patch a
 method's code array are proved against these functions.
 */
module Bytecode {

  /** A Java byte after `& 0xff`. */
  type u8 = x: int | 0 <= x < 256

  const LDC: u8 := 18
  const LDC_W: u8 := 19
  const LDC2_W: u8 := 20
  const ILOAD: u8 := 21
  const ALOAD: u8 := 25
  const ISTORE: u8 := 54
  const ASTORE: u8 := 58
  const IINC: u8 := 132
  const IFEQ: u8 := 153
  const JSR: u8 := 168
  const RET: u8 := 169
  const TABLESWITCH: u8 := 170
  const LOOKUPSWITCH: u8 := 171
  const GETSTATIC: u8 := 178
  const INVOKEINTERFACE: u8 := 185
  const XXXUNUSEDXXX: u8 := 186
  const NEW: u8 := 187
  const ANEWARRAY: u8 := 189
  const CHECKCAST: u8 := 192
  const INSTANCEOF: u8 := 193
  const WIDE: u8 := 196
  const MULTIANEWARRAY: u8 := 197
  const IFNULL: u8 := 198
  const IFNONNULL: u8 := 199
  const GOTO_W: u8 := 200
  const JSR_W: u8 := 201
  const GETSTATIC_FAST: u8 := 208
  const PUTSTATIC2_FAST: u8 := 212
  const UNUSED_D5: u8 := 213
  const INVOKEVIRTUAL_FAST: u8 := 214
  const INSTANCEOF_FAST: u8 := 222
  const LAST_OPCODE: u8 := 225

  /** The table of instruction lengths, by ranges of opcodes; 0 where the length is not fixed or not known. */
  function OpcLength(op: u8): nat
    requires op <= LAST_OPCODE
  {
    if (op == TABLESWITCH || op == LOOKUPSWITCH || op == XXXUNUSEDXXX || op == WIDE || op == UNUSED_D5) then 0
    else if op == 16 || op == LDC || ILOAD <= op <= ALOAD || ISTORE <= op <= ASTORE || op == RET || op == 188 then 2
    else if op == 17 || op == LDC_W || op == LDC2_W || op == IINC || IFEQ <= op <= JSR then 3
    else if GETSTATIC <= op <= 184 || (op == NEW || op == ANEWARRAY || op == CHECKCAST || op == INSTANCEOF || op == IFNULL || op == IFNONNULL) then 3
    else if (op == INVOKEINTERFACE || op == GOTO_W || op == JSR_W || op == 217) then 5
    else if (op == MULTIANEWARRAY || op == 220) then 4
    else if 203 <= op <= INSTANCEOF_FAST || op == 225 then 3
    else 1
  }

  /** The same table, number by number: ten opcodes in a row. */
  const LENGTHS: seq<seq<nat>> := [
    [1, 1, 1, 1, 1, 1, 1, 1, 1, 1],
    [1, 1, 1, 1, 1, 1, 2, 3, 2, 3],
    [3, 2, 2, 2, 2, 2, 1, 1, 1, 1],
    [1, 1, 1, 1, 1, 1, 1, 1, 1, 1],
    [1, 1, 1, 1, 1, 1, 1, 1, 1, 1],
    [1, 1, 1, 1, 2, 2, 2, 2, 2, 1],
    [1, 1, 1, 1, 1, 1, 1, 1, 1, 1],
    [1, 1, 1, 1, 1, 1, 1, 1, 1, 1],
    [1, 1, 1, 1, 1, 1, 1, 1, 1, 1],
    [1, 1, 1, 1, 1, 1, 1, 1, 1, 1],
    [1, 1, 1, 1, 1, 1, 1, 1, 1, 1],
    [1, 1, 1, 1, 1, 1, 1, 1, 1, 1],
    [1, 1, 1, 1, 1, 1, 1, 1, 1, 1],
    [1, 1, 3, 1, 1, 1, 1, 1, 1, 1],
    [1, 1, 1, 1, 1, 1, 1, 1, 1, 1],
    [1, 1, 1, 3, 3, 3, 3, 3, 3, 3],
    [3, 3, 3, 3, 3, 3, 3, 3, 3, 2],
    [0, 0, 1, 1, 1, 1, 1, 1, 3, 3],
    [3, 3, 3, 3, 3, 5, 0, 3, 2, 3],
    [1, 1, 3, 3, 1, 1, 0, 4, 3, 3],
    [5, 5, 1, 3, 3, 3, 3, 3, 3, 3],
    [3, 3, 3, 0, 3, 3, 3, 5, 3, 3],
    [4, 3, 3, 1, 1, 3]]

  lemma LengthsBelow128(op: u8)
    requires op < 128
    ensures OpcLength(op) == LENGTHS[op / 10][op % 10]
  {
  }

  lemma LengthsBelow178(op: u8)
    requires 128 <= op < 178
    ensures OpcLength(op) == LENGTHS[op / 10][op % 10]
  {
  }

  lemma LengthsFrom178(op: u8)
    requires 178 <= op <= LAST_OPCODE
    ensures OpcLength(op) == LENGTHS[op / 10][op % 10]
  {
  }

  /** The ranges say the same as the table. */
  lemma LengthsByNumber(op: u8)
    requires op <= LAST_OPCODE
    ensures OpcLength(op) == LENGTHS[op / 10][op % 10]
  {
    hide OpcLength;
    if op < 128 {
      LengthsBelow128(op);
    } else if op < 178 {
      LengthsBelow178(op);
    } else {
      LengthsFrom178(op);
    }
  }

  /** The opcodes that may follow `wide`. */
  predicate IsWidened(op: u8) {
    ILOAD <= op <= ALOAD || ISTORE <= op <= ASTORE || op == RET || op == IINC
  }

  /** The opcodes whose operand is a two-byte constant-pool index. */
  predicate IsWideRef(op: u8) {
    || op == LDC_W || op == LDC2_W
    || GETSTATIC <= op <= INVOKEINTERFACE
    || (op == NEW || op == ANEWARRAY || op == CHECKCAST || op == INSTANCEOF || op == MULTIANEWARRAY)
    || GETSTATIC_FAST <= op <= PUTSTATIC2_FAST
    || INVOKEVIRTUAL_FAST <= op <= INSTANCEOF_FAST
  }

  predicate IsSwitch(op: u8) {
    op == TABLESWITCH || op == LOOKUPSWITCH
  }

  /** By number, the instructions with a pool index: `ldc` with one byte, and those with two. */
  lemma ReferencesByNumber(op: u8)
    ensures op == LDC <==> op == 18
    ensures IsWideRef(op) <==>
            op in {19, 20, 178, 179, 180, 181, 182, 183, 184, 185, 187, 189, 192, 193, 197,
                   208, 209, 210, 211, 212, 214, 215, 216, 217, 218, 219, 220, 221, 222}
    ensures IsSwitch(op) <==> op in {170, 171}
    ensures op != WIDE && IsWidened(op) <==> op in {21, 22, 23, 24, 25, 54, 55, 56, 57, 58, 132, 169}
  {
  }

  // --------------------------------------------------------------- operands

  function GetUnsignedShort(code: seq<u8>, w: nat): (v: nat)
    requires w + 2 <= |code|
    ensures v < 0x1_0000
  {
    256 * (code[w] as int) + code[w + 1]
  }

  function GetShort(code: seq<u8>, w: nat): (v: int)
    requires w + 2 <= |code|
    ensures -0x8000 <= v < 0x8000
  {
    var u := GetUnsignedShort(code, w);
    if u < 0x8000 then u else u - 0x1_0000
  }

  function GetInt(code: seq<u8>, w: nat): (v: int)
    requires w + 4 <= |code|
    ensures -0x8000_0000 <= v < 0x8000_0000
  {
    var u := 0x1_0000 * GetUnsignedShort(code, w) + GetUnsignedShort(code, w + 2);
    if u < 0x8000_0000 then u else u - 0x1_0000_0000
  }

  /** A number as a Java `int` holds it. */
  function Signed32(x: int): (v: int)
    ensures -0x8000_0000 <= v < 0x8000_0000 && (v - x) % 0x1_0000_0000 == 0
  {
    (x + 0x8000_0000) % 0x1_0000_0000 - 0x8000_0000
  }

  /** `(pc + 4) & ~3`: where the operands of a switch at `pc` begin. */
  function Align(pc: nat): (a: nat)
    ensures pc < a <= pc + 4 && a % 4 == 0
  {
    (pc + 4) / 4 * 4
  }

  /** A number as the class file has it: four bytes, the highest first. */
  function Int4(v: int): (bytes: seq<u8>)
    ensures |bytes| == 4
  {
    var third := v / 256;
    var second := third / 256;
    [second / 256 % 256, second % 256, third % 256, v % 256]
  }

  function Int2(v: int): (bytes: seq<u8>)
    ensures |bytes| == 2
  {
    [v / 256 % 256, v % 256]
  }

  lemma ReadsInt2(code: seq<u8>, w: nat, v: int)
    requires w + 2 <= |code| && code[w..w + 2] == Int2(v) && -0x8000 <= v < 0x8000
    ensures GetShort(code, w) == v
  {
    var b := code[w..w + 2];
    assert b[0] == code[w] && b[1] == code[w + 1];
  }

  lemma ReadsInt4(code: seq<u8>, w: nat, v: int)
    requires w + 4 <= |code| && code[w..w + 4] == Int4(v) && -0x8000_0000 <= v < 0x8000_0000
    ensures GetInt(code, w) == v
  {
    var b := code[w..w + 4];
    assert b[0] == code[w] && b[1] == code[w + 1] && b[2] == code[w + 2] && b[3] == code[w + 3];
  }

  // --------------------------------------------------------------- the walk

  /** The bytes that decide the length of the instruction at `pc` are there. */
  predicate Readable(code: seq<u8>, pc: nat) {
    && pc < |code|
    && code[pc] <= LAST_OPCODE
    && (code[pc] == TABLESWITCH ==> Align(pc) + 12 <= |code|)
    && (code[pc] == LOOKUPSWITCH ==> Align(pc) + 8 <= |code|)
    && (code[pc] == WIDE ==> pc + 1 < |code|)
  }

  /** The length of the instruction at `pc`. */
  function OpcodeLength(code: seq<u8>, pc: nat): int
    requires Readable(code, pc)
  {
    var op := code[pc];
    if op == TABLESWITCH then
      Align(pc) + (GetInt(code, Align(pc) + 8) - GetInt(code, Align(pc) + 4) + 1) * 4 + 12 - pc
    else if op == LOOKUPSWITCH then
      Align(pc) + GetInt(code, Align(pc) + 4) * 8 + 8 - pc
    else if op == WIDE then
      if code[pc + 1] == IINC then 6 else 4
    else
      OpcLength(op)
  }

  /** By number, how long the instruction at `pc` is. */
  lemma LengthByNumber(code: seq<u8>, pc: nat)
    requires Readable(code, pc)
    ensures OpcodeLength(code, pc) ==
            match code[pc]
            case 170 => Align(pc) - pc + 12 + 4 * (GetInt(code, Align(pc) + 8) - GetInt(code, Align(pc) + 4) + 1)
            case 171 => Align(pc) - pc + 8 + 8 * GetInt(code, Align(pc) + 4)
            case 196 => if code[pc + 1] == 132 then 6 else 4
            case op => LENGTHS[op / 10][op % 10]
  {
    LengthsByNumber(code[pc]);
    hide OpcLength, LENGTHS, GetInt;
  }

  /** A `wide` prefix in front of an opcode it cannot widen: the scan reports this as bad data. */
  predicate IsBadWide(code: seq<u8>, pc: nat) {
    pc + 1 < |code| && code[pc] == WIDE && !IsWidened(code[pc + 1])
  }

  /** An instruction of known, positive length stands at `pc` and ends inside the code. */
  predicate Fits(code: seq<u8>, pc: nat) {
    && Readable(code, pc)
    && code[pc] != XXXUNUSEDXXX && code[pc] != UNUSED_D5
    && (code[pc] == TABLESWITCH ==> GetInt(code, Align(pc) + 4) <= GetInt(code, Align(pc) + 8) + 1)
    && (code[pc] == LOOKUPSWITCH ==> 0 <= GetInt(code, Align(pc) + 4))
    && pc + OpcodeLength(code, pc) <= |code|
  }

  lemma FitsIsPositive(code: seq<u8>, pc: nat)
    requires Fits(code, pc)
    ensures OpcodeLength(code, pc) > 0
    ensures code[pc] == LDC ==> OpcodeLength(code, pc) == 2
    ensures IsWideRef(code[pc]) ==> 3 <= OpcodeLength(code, pc) <= 5
    ensures IsSwitch(code[pc]) ==> OpcodeLength(code, pc) == (if code[pc] == TABLESWITCH then
                                                                Align(pc) - pc + 12 + 4 * (GetInt(code, Align(pc) + 8) - GetInt(code, Align(pc) + 4) + 1)
                                                              else Align(pc) - pc + 8 + 8 * GetInt(code, Align(pc) + 4))
  {
  }

  /** Instructions follow one another from `pc` to exactly `end`. */
  ghost predicate WellFormed(code: seq<u8>, pc: nat, end: nat)
    decreases end - pc
  {
    pc == end ||
    (pc < end && Fits(code, pc) && !IsBadWide(code, pc) && OpcodeLength(code, pc) > 0
     && WellFormed(code, pc + OpcodeLength(code, pc), end))
  }

  /** What the scan can get through: instructions up to the end of the code, or up to a bad `wide`. */
  ghost predicate Scannable(code: seq<u8>, pc: nat)
    decreases |code| - pc
  {
    pc == |code| || IsBadWide(code, pc) ||
    (Fits(code, pc) && OpcodeLength(code, pc) > 0 && Scannable(code, pc + OpcodeLength(code, pc)))
  }

  /** The instruction boundaries from `pc` up to `end`. */
  ghost function Starts(code: seq<u8>, pc: nat, end: nat): seq<nat>
    requires WellFormed(code, pc, end)
    decreases end - pc
  {
    if pc == end then [] else [pc] + Starts(code, pc + OpcodeLength(code, pc), end)
  }

  /** Those of the given boundaries at which an instruction of the chosen kind stands. */
  ghost function SelectSites(code: seq<u8>, starts: seq<nat>, wide: bool): seq<nat>
    requires forall i :: 0 <= i < |starts| ==> starts[i] < |code|
  {
    if starts == [] then []
    else
      var p := starts[|starts| - 1];
      var rest := SelectSites(code, starts[..|starts| - 1], wide);
      if (if wide then IsWideRef(code[p]) else code[p] == LDC) then rest + [p] else rest
  }

  lemma {:induction false} WellFormedIsScannable(code: seq<u8>, pc: nat)
    requires WellFormed(code, pc, |code|)
    ensures Scannable(code, pc)
    decreases |code| - pc
  {
    if pc < |code| {
      WellFormedIsScannable(code, pc + OpcodeLength(code, pc));
    }
  }

  /** The instruction at boundary `i` is well formed and ends where the next one begins (the last at `end`). */
  ghost predicate Link(code: seq<u8>, s: seq<nat>, end: nat, i: nat)
    requires i < |s|
  {
    && s[i] < end
    && Fits(code, s[i]) && !IsBadWide(code, s[i]) && 0 < OpcodeLength(code, s[i])
    && s[i] + OpcodeLength(code, s[i]) == (if i + 1 < |s| then s[i + 1] else end)
  }

  lemma {:induction false} StartsChain(code: seq<u8>, pc: nat, end: nat)
    requires WellFormed(code, pc, end)
    ensures var s := Starts(code, pc, end);
            && (forall i :: 0 <= i < |s| ==> Link(code, s, end, i))
            && (pc < end ==> |s| > 0 && s[0] == pc && end <= |code|)
            && pc <= end
    decreases end - pc
  {
    if pc < end {
      var next := pc + OpcodeLength(code, pc);
      StartsChain(code, next, end);
      var s, t := Starts(code, pc, end), Starts(code, next, end);
      assert s == [pc] + t;
      forall i | 0 <= i < |s| ensures Link(code, s, end, i) {
        if i > 0 {
          assert Link(code, t, end, i - 1);
        }
      }
    }
  }

  lemma {:induction false} StartsIncrease(code: seq<u8>, pc: nat, end: nat, i: nat, j: nat)
    requires WellFormed(code, pc, end)
    requires i < j < |Starts(code, pc, end)|
    ensures var s := Starts(code, pc, end);
            Readable(code, s[i]) && s[i] + OpcodeLength(code, s[i]) <= s[j]
    decreases j
  {
    StartsChain(code, pc, end);
    var s := Starts(code, pc, end);
    assert Link(code, s, end, i) && Link(code, s, end, j - 1);
    if i + 1 < j {
      StartsIncrease(code, pc, end, i, j - 1);
    }
  }

  /** The scan keeps exactly the boundaries of its kind, in order. */
  lemma {:induction false} SelectExact(code: seq<u8>, starts: seq<nat>, wide: bool)
    requires forall i :: 0 <= i < |starts| ==> starts[i] < |code|
    requires forall i, j :: 0 <= i < j < |starts| ==> starts[i] < starts[j]
    ensures var s := SelectSites(code, starts, wide);
            && (forall p :: p in s <==> p in starts && (if wide then IsWideRef(code[p]) else code[p] == LDC))
            && |s| <= |starts|
            && (forall i, j :: 0 <= i < j < |s| ==> s[i] < s[j])
  {
    if starts != [] {
      SelectExact(code, starts[..|starts| - 1], wide);
      var last := starts[|starts| - 1];
      var init := starts[..|starts| - 1];
      assert starts == init + [last];
      var rest := SelectSites(code, init, wide);
      forall k | 0 <= k < |rest| ensures rest[k] < last {
        assert rest[k] in rest && rest[k] in init;
      }
    }
  }

  /** One more instruction: the boundaries up to `pc` and then `pc` itself. */
  lemma {:induction false} StartsExtend(code: seq<u8>, from: nat, pc: nat)
    requires WellFormed(code, from, pc) && from <= pc
    requires Fits(code, pc) && !IsBadWide(code, pc) && OpcodeLength(code, pc) > 0
    ensures var next := pc + OpcodeLength(code, pc);
            WellFormed(code, from, next) && Starts(code, from, next) == Starts(code, from, pc) + [pc]
    decreases pc - from
  {
    var next := pc + OpcodeLength(code, pc);
    if from == pc {
      assert WellFormed(code, next, next);
      assert Starts(code, next, next) == [];
    } else {
      var second := from + OpcodeLength(code, from);
      StartsChain(code, second, pc);
      StartsExtend(code, second, pc);
    }
  }

  /** The walk is deterministic: a longer walk goes through every boundary of a shorter one. */
  lemma {:induction false} WalkSplits(code: seq<u8>, from: nat, mid: nat, end: nat)
    requires WellFormed(code, from, mid) && WellFormed(code, from, end) && from <= mid <= end
    ensures WellFormed(code, mid, end)
    ensures Starts(code, from, end) == Starts(code, from, mid) + Starts(code, mid, end)
    decreases mid - from
  {
    if from < mid {
      var second := from + OpcodeLength(code, from);
      StartsChain(code, second, mid);
      WalkSplits(code, second, mid, end);
    } else {
      assert Starts(code, from, mid) == [];
    }
  }

  /** Two walks that meet at one boundary join into one. */
  lemma {:induction false} WalkJoins(code: seq<u8>, from: nat, mid: nat, end: nat)
    requires WellFormed(code, from, mid) && WellFormed(code, mid, end) && from <= mid <= end
    ensures WellFormed(code, from, end)
    decreases mid - from
  {
    if from < mid {
      var second := from + OpcodeLength(code, from);
      StartsChain(code, second, mid);
      WalkJoins(code, second, mid, end);
    }
  }

  /** `other` agrees with `code` on what decides the shape of the instruction at `p`. */
  ghost predicate SameLength(code: seq<u8>, other: seq<u8>, p: nat) {
    Fits(code, p) && Fits(other, p) && IsBadWide(code, p) == IsBadWide(other, p)
    && OpcodeLength(code, p) == OpcodeLength(other, p)
  }

  /** The walk from `pc` depends only on the bytes it meets. */
  lemma {:induction false} WalkDependsOn(code: seq<u8>, other: seq<u8>, pc: nat, end: nat)
    requires WellFormed(code, pc, end) && |other| == |code|
    requires forall p :: p in Starts(code, pc, end) ==> SameLength(code, other, p)
    ensures WellFormed(other, pc, end) && Starts(other, pc, end) == Starts(code, pc, end)
    decreases end - pc
  {
    if pc < end {
      assert pc in Starts(code, pc, end);
      assert SameLength(code, other, pc);
      var next := pc + OpcodeLength(code, pc);
      assert Starts(code, pc, end) == [pc] + Starts(code, next, end);
      forall p | p in Starts(code, next, end) ensures SameLength(code, other, p) {
        assert p in Starts(code, pc, end);
      }
      WalkDependsOn(code, other, next, end);
    }
  }

  /** The shape of an instruction depends on no byte beyond its end. */
  lemma SliceDecides(code: seq<u8>, other: seq<u8>, p: nat)
    requires Fits(code, p) && !IsBadWide(code, p)
    requires p + OpcodeLength(code, p) <= |other|
    requires forall q :: p <= q < p + OpcodeLength(code, p) ==> other[q] == code[q]
    ensures SameLength(code, other, p)
  {
    FitsIsPositive(code, p);
    if code[p] == TABLESWITCH {
      var a := Align(p);
      assert GetUnsignedShort(other, a + 4) == GetUnsignedShort(code, a + 4) && GetUnsignedShort(other, a + 6) == GetUnsignedShort(code, a + 6);
      assert GetUnsignedShort(other, a + 8) == GetUnsignedShort(code, a + 8) && GetUnsignedShort(other, a + 10) == GetUnsignedShort(code, a + 10);
    } else if code[p] == LOOKUPSWITCH {
      var a := Align(p);
      assert GetUnsignedShort(other, a + 4) == GetUnsignedShort(code, a + 4) && GetUnsignedShort(other, a + 6) == GetUnsignedShort(code, a + 6);
    }
  }
}
