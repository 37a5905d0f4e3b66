/**
 Tables of constant-pool entries, and what remains of one when some entries are dropped.
 Slot 0 is unused; an entry of two slots is followed by a null place holder.
 */
module SlotTable {
  import opened Constants

  ghost predicate SlotOk(tab: seq<ConstantObject?>, i: nat)
    requires i < |tab|
  {
    if tab[i] != null then
      i + tab[i].NSlots() <= |tab| && (tab[i].NSlots() == 2 ==> tab[i + 1] == null)
    else
      i >= 2 && tab[i - 1] != null && tab[i - 1].NSlots() == 2
  }

  ghost predicate TableOk(tab: seq<ConstantObject?>) {
    && |tab| >= 1 && tab[0] == null
    && forall i :: 1 <= i < |tab| ==> SlotOk(tab, i)
  }

  /** An index at which a walk by entry sizes stands: an entry, or the end of the table. */
  predicate AtEntry(tab: seq<ConstantObject?>, i: nat) {
    1 <= i <= |tab| && (i < |tab| ==> tab[i] != null)
  }

  lemma AfterEntry(tab: seq<ConstantObject?>, n: nat)
    requires TableOk(tab) && 1 < n <= |tab|
    ensures AtEntry(tab, n) <==> tab[n - 1] == null || tab[n - 1].NSlots() == 1
  {
    assert SlotOk(tab, n - 1) && (n < |tab| ==> SlotOk(tab, n));
  }

  /** The slots that one entry takes. */
  ghost function Room(o: ConstantObject): (r: seq<ConstantObject?>) {
    if o.NSlots() == 2 then [o, null] else [o]
  }

  lemma AppendIsTable(tab: seq<ConstantObject?>, o: ConstantObject)
    requires TableOk(tab)
    ensures TableOk(tab + Room(o))
  {
    var r := tab + Room(o);
    forall i | 1 <= i < |r| ensures SlotOk(r, i) {
      if i < |tab| {
        assert SlotOk(tab, i);
      }
    }
  }

  ghost function Kept(o: ConstantObject?, keep: set<ConstantObject>): (r: seq<ConstantObject?>) {
    if o == null || o !in keep then [] else Room(o)
  }

  /** Where the entry at slot `i` goes when only the entries in `keep` are kept: after slot 0 and the kept entries before it. */
  ghost function Position(tab: seq<ConstantObject?>, keep: set<ConstantObject>, i: nat): (p: nat)
    requires 1 <= i <= |tab|
    ensures p >= 1
  {
    if i == 1 then 1 else Position(tab, keep, i - 1) + |Kept(tab[i - 1], keep)|
  }

  /** What the first `n` slots become when only the entries in `keep` are kept. */
  ghost function Compact(tab: seq<ConstantObject?>, keep: set<ConstantObject>, n: nat): (r: seq<ConstantObject?>)
    requires 1 <= n <= |tab|
    ensures |r| == Position(tab, keep, n) && r[0] == null
  {
    if n == 1 then [null] else Compact(tab, keep, n - 1) + Kept(tab[n - 1], keep)
  }

  lemma {:induction false} CompactStep(tab: seq<ConstantObject?>, keep: set<ConstantObject>, n: nat)
    requires 1 < n <= |tab|
    ensures Compact(tab, keep, n) == Compact(tab, keep, n - 1) + Kept(tab[n - 1], keep)
    ensures Position(tab, keep, n) == Position(tab, keep, n - 1) + |Kept(tab[n - 1], keep)|
  {
  }

  lemma {:induction false} CompactGrows(tab: seq<ConstantObject?>, keep: set<ConstantObject>, i: nat, j: nat)
    requires 1 <= i <= j <= |tab|
    ensures Compact(tab, keep, i) <= Compact(tab, keep, j)
    decreases j
  {
    if i < j {
      CompactGrows(tab, keep, i, j - 1);
    }
  }

  /** A kept entry is found at its position, and order is kept. */
  lemma CompactPlaces(tab: seq<ConstantObject?>, keep: set<ConstantObject>, i: nat, n: nat)
    requires 1 <= i < n <= |tab| && tab[i] != null && tab[i] in keep
    ensures var r := Compact(tab, keep, n); var p := Position(tab, keep, i);
            && p + tab[i].NSlots() <= |r| && Position(tab, keep, i + 1) == p + tab[i].NSlots()
            && r[p] == tab[i] && (tab[i].NSlots() == 2 ==> r[p + 1] == null)
  {
    CompactGrows(tab, keep, i + 1, n);
  }

  lemma {:induction false} OrderKept(tab: seq<ConstantObject?>, keep: set<ConstantObject>, i: nat, j: nat)
    requires 1 <= i < j <= |tab| && tab[i] != null && tab[i] in keep
    ensures Position(tab, keep, i) < Position(tab, keep, j)
  {
    CompactGrows(tab, keep, i + 1, j);
  }

  /** Dropping entries never raises the index of one that stays. */
  lemma {:induction false} NeverRaised(tab: seq<ConstantObject?>, keep: set<ConstantObject>, i: nat)
    requires TableOk(tab) && 1 <= i <= |tab|
    ensures Position(tab, keep, i) <= i + (if AtEntry(tab, i) then 0 else 1)
  {
    if i > 1 {
      assert SlotOk(tab, i - 1);
      NeverRaised(tab, keep, i - 1);
      if i < |tab| {
        assert SlotOk(tab, i);
      }
      if tab[i - 1] == null && i > 2 {
        NeverRaised(tab, keep, i - 2);
      }
    }
  }

  /** The compacted table is again a table, of exactly the kept entries. */
  lemma {:induction false} CompactIsTable(tab: seq<ConstantObject?>, keep: set<ConstantObject>, n: nat)
    requires 1 <= n <= |tab|
    ensures TableOk(Compact(tab, keep, n))
    ensures forall o: ConstantObject :: o in Compact(tab, keep, n) <==> o in keep && o in tab[1..n]
  {
    if n > 1 {
      CompactIsTable(tab, keep, n - 1);
      var r, r' := Compact(tab, keep, n), Compact(tab, keep, n - 1);
      var k := Kept(tab[n - 1], keep);
      assert r == r' + k;
      assert tab[1..n] == tab[1..n - 1] + [tab[n - 1]];
      forall i | 1 <= i < |r| ensures SlotOk(r, i) {
        if i < |r'| {
          assert SlotOk(r', i);
        }
      }
      forall o: ConstantObject ensures o in r <==> o in keep && o in tab[1..n] {
        assert o in r <==> o in r' || o in k;
      }
    }
  }

  /** Stepping over an entry leads to the next entry or to the end; slot 1 is an entry unless the table is empty. */
  lemma WalkStep(tab: seq<ConstantObject?>, keep: set<ConstantObject>, i: nat)
    requires TableOk(tab)
    requires i == 0 || (i < |tab| && AtEntry(tab, i))
    ensures i == 0 ==> AtEntry(tab, 1) && Position(tab, keep, 1) == 1
    ensures i > 0 ==>
              var next := i + tab[i].NSlots();
              && AtEntry(tab, next)
              && Position(tab, keep, next) == Position(tab, keep, i) + (if tab[i] in keep then tab[i].NSlots() else 0)
              && (forall k :: i < k < next ==> tab[k] == null)
  {
    if i == 0 {
      if |tab| > 1 {
        assert SlotOk(tab, 1);
      }
    } else {
      assert SlotOk(tab, i);
      var next := i + tab[i].NSlots();
      if next < |tab| {
        assert SlotOk(tab, next);
      }
    }
  }

  /** The step of a walk from the entry at `i`: to the next entry, past the room its copy takes in `goal`. */
  ghost predicate StepAt(tab: seq<ConstantObject?>, keep: set<ConstantObject>, goal: seq<ConstantObject?>, pos: seq<nat>, i: nat)
    requires i < |tab| && |pos| == |tab| + 1
  {
    tab[i] != null ==>
      var next := i + tab[i].NSlots();
      && AtEntry(tab, next)
      && (forall k :: i < k < next ==> tab[k] == null)
      && pos[i] <= pos[next] <= |goal|
      && (tab[i] !in keep ==> pos[next] == pos[i])
      && (tab[i] in keep ==> pos[next] == pos[i] + tab[i].NSlots() && goal[pos[i]] == tab[i] && (next == i + 2 ==> goal[pos[i] + 1] == null))
  }

  /** `pos` says where a walk over `tab` puts its kept entries so that they make up `goal`. */
  ghost predicate LayoutOk(tab: seq<ConstantObject?>, keep: set<ConstantObject>, goal: seq<ConstantObject?>, pos: seq<nat>) {
    && |pos| == |tab| + 1 && |tab| >= 1
    && pos[1] == 1 && AtEntry(tab, 1)
    && pos[|tab|] == |goal| && |goal| >= 1 && goal[0] == null
    && forall i :: 1 <= i < |tab| ==> StepAt(tab, keep, goal, pos, i)
  }

  lemma LayoutStep(tab: seq<ConstantObject?>, keep: set<ConstantObject>, pos: seq<nat>, i: nat)
    requires TableOk(tab) && 1 <= i < |tab| && tab[i] != null && |pos| == |tab| + 1
    requires pos[i] == Position(tab, keep, i)
    requires i + tab[i].NSlots() <= |tab| ==> pos[i + tab[i].NSlots()] == Position(tab, keep, i + tab[i].NSlots())
    ensures StepAt(tab, keep, Compact(tab, keep, |tab|), pos, i)
  {
    var goal := Compact(tab, keep, |tab|);
    WalkStep(tab, keep, i);
    assert pos[i + tab[i].NSlots()] <= |goal| by {
      CompactGrows(tab, keep, i + tab[i].NSlots(), |tab|);
    }
    if tab[i] in keep {
      CompactPlaces(tab, keep, i, |tab|);
    }
  }

  /** The positions of all slots lay out the compacted table. */
  lemma Layout(tab: seq<ConstantObject?>, keep: set<ConstantObject>) returns (pos: seq<nat>)
    requires TableOk(tab)
    ensures LayoutOk(tab, keep, Compact(tab, keep, |tab|), pos)
    ensures forall i :: 1 <= i <= |tab| ==> pos[i] == Position(tab, keep, i)
  {
    pos := seq(|tab| + 1, i requires 0 <= i <= |tab| => if i == 0 then 0 else Position(tab, keep, i));
    WalkStep(tab, keep, 0);
    forall i | 1 <= i < |tab| ensures StepAt(tab, keep, Compact(tab, keep, |tab|), pos, i) {
      if tab[i] != null {
        LayoutStep(tab, keep, pos, i);
      }
    }
  }
}
