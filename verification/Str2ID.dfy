/**
 Strings to identifiers: a chain of hash tables of prime size, each probed with a second hash. A string
 keeps its identifier forever, and no two strings share one.
 */
module StringIds {
  import opened Primes
  import opened Sets
  import opened Utf16
  import opened Wrappers

  const DEFAULT_HASH_TABLE_SIZE := 2003

  // ---------------------------------------------------------------- hashing

  /** The hash of a string, as the unsigned value of 32 bits. */
  function Hash(str: Text): (h: nat)
    ensures h < 0x1_0000_0000
  {
    if str == [] then 0 else (Hash(str[..|str| - 1]) * 37 + str[|str| - 1] as int) % 0x1_0000_0000
  }

  method HashString(str: Text) returns (result: nat)
    ensures result == Hash(str)
  {
    result := 0;
    for i := 0 to |str|
      invariant result == Hash(str[..i])
    {
      assert str[..i + 1][..i] == str[..i];
      result := (result * 37 + str[i] as int) % 0x1_0000_0000;
    }
    assert str[..|str|] == str;
  }

  function PositiveHash(str: Text): nat {
    Hash(str) % 0x8000_0000
  }

  function Step(str: Text): (n: nat)
    ensures 1 <= n <= 8
  {
    Hash(str) % 8 + 1
  }

  /** The first odd number from `size` on that the prime test accepts, which is a prime unless it is 1. */
  ghost predicate IsTableSize(n: nat, size: nat) {
    && n >= size && n % 2 == 1 && (if size <= 1 then n == 1 else Prime(n))
    && forall m :: size <= m < n && m != 2 ==> !Prime(m)
  }

  // ---------------------------------------------------------------- one table, as values

  /** The slot where probing for `str` stands after `j` steps. */
  function Probe(str: Text, size: nat, j: nat): (r: nat)
    requires size > 8
    ensures r < size
  {
    Place(Hash(str) % size, Step(str), size, j)
  }

  /** The first `j` slots probed for `str` are taken, none of them by `str`. */
  ghost predicate ProbedInVain(slots: seq<Option<Text>>, str: Text, j: nat)
    requires |slots| > 8
  {
    forall i :: 0 <= i < j ==> slots[Probe(str, |slots|, i)].Some? && slots[Probe(str, |slots|, i)] != Some(str)
  }

  /** Probing for the string in slot `k` gets there. */
  ghost predicate Found(slots: seq<Option<Text>>, k: nat)
    requires |slots| > 8 && k < |slots|
  {
    slots[k].Some? ==>
      exists j: nat :: Probe(slots[k].value, |slots|, j) == k && ProbedInVain(slots, slots[k].value, j)
  }

  ghost predicate AllFound(slots: seq<Option<Text>>)
    requires |slots| > 8
  {
    forall k :: 0 <= k < |slots| ==> Found(slots, k)
  }

  function Taken(slots: seq<Option<Text>>): (n: nat)
    ensures n <= |slots|
  {
    if slots == [] then 0 else Taken(slots[..|slots| - 1]) + if slots[|slots| - 1].Some? then 1 else 0
  }

  ghost predicate StandsFrom(slots: seq<Option<Text>>, i: nat, s: Text) {
    exists k :: i <= k < |slots| && slots[k] == Some(s)
  }

  lemma NothingFrom(slots: seq<Option<Text>>)
    ensures slots[..|slots|] == slots && forall s :: !StandsFrom(slots, |slots|, s)
  {
  }

  lemma OneFrom(slots: seq<Option<Text>>, i: nat)
    requires i < |slots|
    ensures Taken(slots[..i + 1]) == Taken(slots[..i]) + if slots[i] == None then 0 else 1
    ensures forall s :: StandsFrom(slots, i, s) <==> StandsFrom(slots, i + 1, s) || slots[i] == Some(s)
  {
    assert slots[..i + 1][..i] == slots[..i];
  }

  lemma AllFrom(slots: seq<Option<Text>>)
    ensures forall s :: StandsFrom(slots, 0, s) <==> Some(s) in slots
  {
  }

  lemma {:induction false} SomeSlotIsEmpty(slots: seq<Option<Text>>) returns (k: nat)
    requires Taken(slots) < |slots|
    ensures k < |slots| && slots[k] == None
  {
    var n := |slots| - 1;
    if slots[n].Some? {
      k := SomeSlotIsEmpty(slots[..n]);
    } else {
      k := n;
    }
  }

  lemma {:induction false} TakingOneMore(slots: seq<Option<Text>>, k: nat, str: Text)
    requires k < |slots| && slots[k] == None
    ensures Taken(slots[k := Some(str)]) == Taken(slots) + 1
  {
    var n := |slots| - 1;
    if k < n {
      assert slots[k := Some(str)][..n] == slots[..n][k := Some(str)];
      TakingOneMore(slots[..n], k, str);
    } else {
      assert slots[k := Some(str)][..n] == slots[..n];
    }
  }

  /** In a table of prime size that is not full, probing for any string reaches it or an empty slot within one cycle. */
  lemma ProbingEnds(slots: seq<Option<Text>>, str: Text) returns (j: nat)
    requires |slots| > 8 && Prime(|slots|) && Taken(slots) < |slots|
    ensures j < |slots| && ProbedInVain(slots, str, j)
    ensures slots[Probe(str, |slots|, j)] == None || slots[Probe(str, |slots|, j)] == Some(str)
  {
    var k := SomeSlotIsEmpty(slots);
    var last := EverySlotIsVisited(Hash(str) % |slots|, Step(str), |slots|, k);
    j := 0;
    while slots[Probe(str, |slots|, j)].Some? && slots[Probe(str, |slots|, j)] != Some(str)
      invariant j <= last && ProbedInVain(slots, str, j)
      decreases last - j
    {
      j := j + 1;
    }
  }

  /** If probing for a string ends at an empty slot, the string is not in the table. */
  lemma EndedMeansAbsent(slots: seq<Option<Text>>, str: Text, j: nat)
    requires |slots| > 8 && AllFound(slots) && ProbedInVain(slots, str, j) && slots[Probe(str, |slots|, j)] == None
    ensures Some(str) !in slots
  {
    forall k | 0 <= k < |slots| ensures slots[k] != Some(str) {
      assert Found(slots, k);
      forall i: nat | ProbedInVain(slots, str, i) ensures slots[Probe(str, |slots|, i)] != Some(str) {
        assert i < j || i == j || j < i;
      }
    }
  }

  /** Putting a string where probing for it ended keeps every string findable. */
  lemma PuttingKeepsFound(slots: seq<Option<Text>>, str: Text, j: nat)
    requires |slots| > 8 && AllFound(slots) && ProbedInVain(slots, str, j) && slots[Probe(str, |slots|, j)] == None
    ensures AllFound(slots[Probe(str, |slots|, j) := Some(str)])
  {
    var k := Probe(str, |slots|, j);
    var after := slots[k := Some(str)];
    EndedMeansAbsent(slots, str, j);
    forall i | 0 <= i < |after| ensures Found(after, i) {
      if i == k {
        assert ProbedInVain(after, str, j);
      } else if after[i].Some? {
        assert Found(slots, i);
        var n: nat :| Probe(slots[i].value, |slots|, n) == i && ProbedInVain(slots, slots[i].value, n);
        assert ProbedInVain(after, slots[i].value, n);
      }
    }
  }

  // ---------------------------------------------------------------- tables of any size

  /** Where the walk for `str` stands after `j` steps; in a table of less than 8 slots that may be outside. */
  function Spot(str: Text, size: nat, j: nat): int
    requires size > 0
  {
    if j == 0 then Hash(str) % size else StepBack(Spot(str, size, j - 1), Step(str), size)
  }

  /** The walk for `str` meets taken slots and then, after `j` steps, an empty one, without leaving the table. */
  ghost predicate Reaches(slots: seq<Option<Text>>, str: Text, j: nat)
    requires |slots| > 0
  {
    && (forall i :: 0 <= i <= j ==> 0 <= Spot(str, |slots|, i) < |slots|)
    && (forall i :: 0 <= i < j ==> slots[Spot(str, |slots|, i)] != None)
    && slots[Spot(str, |slots|, j)] == None
  }

  /** Strings that the table does not have can be entered in this order. */
  ghost predicate CanEnter(slots: seq<Option<Text>>, strs: seq<Text>)
    requires |slots| > 0
    decreases |strs|
  {
    strs == [] ||
    exists j: nat :: Reaches(slots, strs[0], j) && CanEnter(slots[Spot(strs[0], |slots|, j) := Some(strs[0])], strs[1..])
  }

  ghost predicate NoRepeats(strs: seq<Text>) {
    forall i, j :: 0 <= i < j < |strs| ==> strs[i] != strs[j]
  }

  function Empty(size: nat): seq<Option<Text>> {
    seq(size, _ => None)
  }

  lemma {:induction false} SpotIsProbe(str: Text, size: nat, j: nat)
    requires size > 8
    ensures Spot(str, size, j) == Probe(str, size, j)
  {
    if j > 0 {
      SpotIsProbe(str, size, j - 1);
    }
  }

  /** A table of prime size above 8 takes any strings that leave a slot empty. */
  lemma {:induction false} RoomIsEnough(slots: seq<Option<Text>>, strs: seq<Text>)
    requires |slots| > 8 && Prime(|slots|) && Taken(slots) + |strs| < |slots| && NoRepeats(strs)
    requires forall s <- strs :: Some(s) !in slots
    ensures CanEnter(slots, strs)
    decreases |strs|
  {
    if strs != [] {
      var str := strs[0];
      var j := ProbingEnds(slots, str);
      forall i | 0 <= i <= j ensures Spot(str, |slots|, i) == Probe(str, |slots|, i) {
        SpotIsProbe(str, |slots|, i);
      }
      assert str in strs;
      var after := slots[Spot(str, |slots|, j) := Some(str)];
      TakingOneMore(slots, Spot(str, |slots|, j), str);
      forall s | s in strs[1..] ensures Some(s) !in after {
        var k :| 0 <= k < |strs| - 1 && strs[1..][k] == s;
        assert s == strs[k + 1] != str && s in strs;
      }
      RoomIsEnough(after, strs[1..]);
      assert Reaches(slots, str, j);
    }
  }

  lemma OneString(slots: seq<Option<Text>>, str: Text)
    requires |slots| > 0 && slots[Hash(str) % |slots|] == None
    ensures CanEnter(slots, [str])
  {
    assert Spot(str, |slots|, 0) == Hash(str) % |slots|;
    assert Reaches(slots, str, 0);
    assert CanEnter(slots[Spot(str, |slots|, 0) := Some(str)], [str][1..]);
  }

  /** Two strings with step 8 that start at slot 0 of a table of less than 8 slots: the second leaves the table. */
  lemma SecondLeaves(size: nat, strs: seq<Text>)
    requires 0 < size < 8 && |strs| >= 2
    requires forall i :: 0 <= i < 2 ==> Hash(strs[i]) % size == 0 && Step(strs[i]) == 8
    ensures !CanEnter(Empty(size), strs)
  {
    var slots := Empty(size);
    forall j: nat | Reaches(slots, strs[0], j) ensures !CanEnter(slots[Spot(strs[0], size, j) := Some(strs[0])], strs[1..]) {
      assert Spot(strs[0], size, 0) == 0 && slots[0] == None;
      assert j == 0;
      var after := slots[0 := Some(strs[0])];
      forall i: nat ensures !Reaches(after, strs[1..][0], i) {
        assert Spot(strs[1], size, 0) == 0 && Spot(strs[1], size, 1) == size - 8;
      }
    }
  }

  /** The strings of one character each: 7 or 15 and, for each, a multiple of 8 times the size more. */
  function Clash(size: nat, count: nat): (strs: seq<Text>)
    requires size <= 7 && count <= 5
  {
    seq(count, i requires 0 <= i < count => [((if size == 7 then 7 else 15) + 8 * size * i) as u16])
  }

  lemma ClashHash(size: nat, i: nat)
    requires size in {3, 5, 7} && i < 5
    ensures var c := (if size == 7 then 7 else 15) + 8 * size * i;
            c < 0x1_0000 && c % size == 0 && c % 8 == 7 && c / 8 == (if size == 7 then 0 else 1) + size * i
  {
    assert i == 0 || i == 1 || i == 2 || i == 3 || i == 4;
  }

  lemma HashOfOne(c: u16)
    ensures Hash([c]) == c as int
  {
    assert [c][..0] == [];
    assert Hash([]) == 0;
  }

  lemma HashOfTwo(c: u16, d: u16)
    ensures Hash([c, d]) == 37 * (c as int) + d as int
  {
    HashOfOne(c);
    assert [c, d][..1] == [c];
  }

  lemma ClashFails(size: nat, count: nat)
    requires size in {3, 5, 7} && 2 <= count <= 5
    ensures |Clash(size, count)| == count && NoRepeats(Clash(size, count)) && !CanEnter(Empty(size), Clash(size, count))
  {
    var strs := Clash(size, count);
    forall i | 0 <= i < count ensures Hash(strs[i]) % size == 0 && Step(strs[i]) == 8 && strs[i][0] as int / 8 >= size * i {
      ClashHash(size, i);
      HashOfOne(strs[i][0]);
    }
    forall i, j | 0 <= i < j < count ensures strs[i] != strs[j] {
      ClashHash(size, i);
      ClashHash(size, j);
    }
    hide Clash, CanEnter;
    SecondLeaves(size, strs);
  }

  /** The sizes of the tables made for few strings; no number of strings reaches the overflow point of its table too early. */
  lemma SmallSizes(count: nat, size: nat)
    requires IsTableSize(size, (5 * count + 3) / 4)
    ensures count == 1 || count == 2 ==> size == 3
    ensures count == 3 || count == 4 ==> size == 5
    ensures count == 5 ==> size == 7
    ensures count >= 6 ==> size > 8 && size > count && Prime(size)
    ensures 4 * size / 5 >= count
  {
    assert Prime(3) && Prime(5) && Prime(7);
  }

  lemma {:induction false} NothingTaken(slots: seq<Option<Text>>)
    requires forall k :: 0 <= k < |slots| ==> slots[k] == None
    ensures Taken(slots) == 0 && (|slots| > 8 ==> AllFound(slots))
  {
    if slots != [] {
      NothingTaken(slots[..|slots| - 1]);
    }
  }

  /** A table made for a number of strings takes any strings of that number exactly if there is at most one or at least 6. */
  lemma RehashFitsExactly(count: nat, size: nat)
    requires IsTableSize(size, (5 * count + 3) / 4)
    ensures (forall strs: seq<Text> :: |strs| == count && NoRepeats(strs) ==> CanEnter(Empty(size), strs)) <==> count <= 1 || count >= 6
  {
    SmallSizes(count, size);
    if 2 <= count <= 5 {
      ClashFails(size, count);
    } else {
      forall strs: seq<Text> | |strs| == count && NoRepeats(strs) ensures CanEnter(Empty(size), strs) {
        if count == 1 {
          assert strs == [strs[0]];
          OneString(Empty(size), strs[0]);
        } else if count >= 6 {
          NothingTaken(Empty(size));
          RoomIsEnough(Empty(size), strs);
        }
      }
    }
  }

  // ---------------------------------------------------------------- a chain of tables, as values

  datatype View = View(baseId: nat, used: nat, slots: seq<Option<Text>>, hashes: seq<nat>)

  /** A table that is not too full, with every string where probing finds it. */
  ghost predicate ViewOk(v: View) {
    && |v.slots| == |v.hashes| > 8 && Prime(|v.slots|)
    && v.used == Taken(v.slots) <= 4 * |v.slots| / 5
    && AllFound(v.slots)
    && forall k :: 0 <= k < |v.slots| && v.slots[k].Some? ==> v.hashes[k] == PositiveHash(v.slots[k].value)
  }

  lemma UsedIsTaken(v: View)
    requires ViewOk(v)
    ensures v.used == Taken(v.slots)
  {
  }

  /** A new string is put where probing for it ended. */
  ghost function Stored(v: View, str: Text, k: nat): View
    requires k < |v.slots| == |v.hashes|
  {
    v.(used := v.used + 1, slots := v.slots[k := Some(str)], hashes := v.hashes[k := PositiveHash(str)])
  }

  lemma StoredOk(v: View, str: Text, j: nat)
    requires ViewOk(v) && v.used < 4 * |v.slots| / 5
    requires ProbedInVain(v.slots, str, j) && v.slots[Probe(str, |v.slots|, j)] == None
    ensures ViewOk(Stored(v, str, Probe(str, |v.slots|, j)))
  {
    PuttingKeepsFound(v.slots, str, j);
    TakingOneMore(v.slots, Probe(str, |v.slots|, j), str);
  }

  ghost predicate Follows(views: seq<View>, c: nat)
    requires 0 < c < |views|
  {
    views[c].baseId == views[c - 1].baseId + |views[c - 1].slots|
  }

  /** Each table starts counting where the one before it ends. */
  ghost predicate BasesOk(views: seq<View>) {
    forall c {:trigger Follows(views, c)} :: 0 < c < |views| ==> Follows(views, c)
  }

  ghost predicate Contains(views: seq<View>, str: Text) {
    exists c :: 0 <= c < |views| && Some(str) in views[c].slots
  }

  ghost predicate SlotCounts(views: seq<View>, ids: map<Text, int>, c: nat)
    requires c < |views|
  {
    forall k :: 0 <= k < |views[c].slots| && views[c].slots[k].Some? ==>
      views[c].slots[k].value in ids && ids[views[c].slots[k].value] == views[c].baseId + k
  }

  /** The identifiers are those of the strings that are stored, and of no others. */
  ghost predicate IdsOk(views: seq<View>, ids: map<Text, int>) {
    && BasesOk(views)
    && (forall c {:trigger SlotCounts(views, ids, c)} :: 0 <= c < |views| ==> SlotCounts(views, ids, c))
    && (forall str <- ids :: Contains(views, str))
  }

  ghost predicate ChainOk(views: seq<View>, ids: map<Text, int>) {
    IdsOk(views, ids) && forall c {:trigger views[c]} :: 0 <= c < |views| ==> ViewOk(views[c])
  }

  /** How many strings the first `n` tables hold. */
  ghost function TotalUsed(views: seq<View>, n: nat): nat
    requires n <= |views|
  {
    if n == 0 then 0 else TotalUsed(views, n - 1) + views[n - 1].used
  }

  lemma {:induction false} BasesGrow(views: seq<View>, c: nat, d: nat)
    requires BasesOk(views) && c < d < |views|
    ensures views[c].baseId + |views[c].slots| <= views[d].baseId
    decreases d
  {
    assert Follows(views, d);
    if c < d - 1 {
      BasesGrow(views, c, d - 1);
    }
  }

  lemma IdsArePositive(views: seq<View>, ids: map<Text, int>, s: Text)
    requires ChainOk(views, ids) && s in ids
    ensures ids[s] >= 0
  {
    var c :| 0 <= c < |views| && Some(s) in views[c].slots;
    assert SlotCounts(views, ids, c);
  }

  /** No two strings share an identifier. */
  lemma IdsInjective(views: seq<View>, ids: map<Text, int>, a: Text, b: Text)
    requires ChainOk(views, ids) && a in ids && b in ids && ids[a] == ids[b]
    ensures a == b
  {
    hide ViewOk;
    var c :| 0 <= c < |views| && Some(a) in views[c].slots;
    var d :| 0 <= d < |views| && Some(b) in views[d].slots;
    assert SlotCounts(views, ids, c) && SlotCounts(views, ids, d);
    var k :| 0 <= k < |views[c].slots| && views[c].slots[k] == Some(a);
    var l :| 0 <= l < |views[d].slots| && views[d].slots[l] == Some(b);
    if c < d {
      BasesGrow(views, c, d);
    } else if d < c {
      BasesGrow(views, d, c);
    }
  }

  ghost function StringsIn(slots: seq<Option<Text>>): set<Text> {
    set o | o in slots && o.Some? :: o.value
  }

  /** The strings of the first `n` tables. */
  ghost function Strings(views: seq<View>, n: nat): set<Text>
    requires n <= |views|
  {
    if n == 0 then {} else Strings(views, n - 1) + StringsIn(views[n - 1].slots)
  }

  lemma {:induction false} TakenCountsStrings(slots: seq<Option<Text>>)
    requires forall i, j :: 0 <= i < j < |slots| && slots[i].Some? ==> slots[i] != slots[j]
    ensures |StringsIn(slots)| == Taken(slots)
  {
    if slots != [] {
      var init, o := slots[..|slots| - 1], slots[|slots| - 1];
      TakenCountsStrings(init);
      assert slots == init + [o];
      if o.Some? {
        assert StringsIn(slots) == StringsIn(init) + {o.value};
        assert o.value !in StringsIn(init);
      } else {
        assert StringsIn(slots) == StringsIn(init);
      }
    }
  }

  ghost predicate InFirst(views: seq<View>, n: nat, s: Text) {
    exists c :: 0 <= c < n && c < |views| && Some(s) in views[c].slots
  }

  lemma NobodyFirst(views: seq<View>)
    ensures forall s :: !InFirst(views, 0, s)
  {
  }

  lemma OneMoreFirst(views: seq<View>, n: nat)
    requires n < |views|
    ensures forall s :: InFirst(views, n + 1, s) <==> InFirst(views, n, s) || Some(s) in views[n].slots
  {
  }

  lemma {:induction false} StringsAreStored(views: seq<View>, n: nat, s: Text)
    requires n <= |views|
    ensures s in Strings(views, n) <==> InFirst(views, n, s)
  {
    if n > 0 {
      StringsAreStored(views, n - 1, s);
      assert s in StringsIn(views[n - 1].slots) <==> Some(s) in views[n - 1].slots;
    }
  }

  lemma OwnSlots(views: seq<View>, ids: map<Text, int>, c: nat)
    requires ChainOk(views, ids) && c < |views|
    ensures |StringsIn(views[c].slots)| == views[c].used
  {
    assert SlotCounts(views, ids, c) && ViewOk(views[c]);
    TakenCountsStrings(views[c].slots);
  }

  lemma ElsewhereOnly(views: seq<View>, ids: map<Text, int>, n: nat, s: Text)
    requires ChainOk(views, ids) && n < |views| && InFirst(views, n, s)
    ensures Some(s) !in views[n].slots
  {
    var c :| 0 <= c < n && Some(s) in views[c].slots;
    assert SlotCounts(views, ids, c) && SlotCounts(views, ids, n);
    BasesGrow(views, c, n);
  }

  /** The strings of a table are not in the tables before it. */
  lemma OtherStrings(views: seq<View>, ids: map<Text, int>, n: nat)
    requires ChainOk(views, ids) && n < |views|
    ensures Strings(views, n) !! StringsIn(views[n].slots)
  {
    hide ChainOk, InFirst;
    forall s | s in Strings(views, n) ensures s !in StringsIn(views[n].slots) {
      StringsAreStored(views, n, s);
      ElsewhereOnly(views, ids, n, s);
    }
  }

  lemma OneMoreTable(views: seq<View>, ids: map<Text, int>, n: nat)
    requires ChainOk(views, ids) && 0 < n <= |views|
    ensures |Strings(views, n)| == |Strings(views, n - 1)| + views[n - 1].used
  {
    hide ChainOk, StringsIn;
    OtherStrings(views, ids, n - 1);
    OwnSlots(views, ids, n - 1);
    UnionSize(Strings(views, n - 1), StringsIn(views[n - 1].slots));
  }

  /** Every string has its own slot, so the tables hold as many strings as identifiers have been given. */
  lemma {:induction false} TotalCountsStrings(views: seq<View>, ids: map<Text, int>, n: nat)
    requires ChainOk(views, ids) && n <= |views|
    ensures |Strings(views, n)| == TotalUsed(views, n)
  {
    if n > 0 {
      hide ChainOk, Strings;
      OneMoreTable(views, ids, n);
      TotalCountsStrings(views, ids, n - 1);
    }
  }

  lemma MemberIsContained(views: seq<View>, ids: map<Text, int>, str: Text)
    requires ChainOk(views, ids)
    ensures str in ids <==> Contains(views, str)
  {
    if Contains(views, str) {
      var c :| 0 <= c < |views| && Some(str) in views[c].slots;
      assert SlotCounts(views, ids, c);
    }
  }

  lemma EveryoneFirst(views: seq<View>, ids: map<Text, int>)
    requires ChainOk(views, ids)
    ensures forall s :: InFirst(views, |views|, s) <==> s in ids
  {
    hide ChainOk;
    forall s ensures InFirst(views, |views|, s) <==> s in ids {
      MemberIsContained(views, ids, s);
    }
  }

  /** As many strings are stored as identifiers have been given. */
  lemma StringCount(views: seq<View>, ids: map<Text, int>)
    requires ChainOk(views, ids)
    ensures |ids| == TotalUsed(views, |views|)
  {
    TotalCountsStrings(views, ids, |views|);
    forall s ensures s in Strings(views, |views|) <==> s in ids.Keys {
      StringsAreStored(views, |views|, s);
      MemberIsContained(views, ids, s);
    }
    assert Strings(views, |views|) == ids.Keys;
  }

  /** A new string goes to an empty slot of the last table. */
  lemma StoringOne(views: seq<View>, ids: map<Text, int>, str: Text, k: nat)
    requires IdsOk(views, ids) && views != [] && str !in ids
    requires var last := views[|views| - 1]; k < |last.slots| && last.slots[k] == None
    requires |views[|views| - 1].hashes| == |views[|views| - 1].slots|
    ensures var last := views[|views| - 1];
            IdsOk(views[|views| - 1 := Stored(last, str, k)], ids[str := last.baseId + k])
  {
    var n := |views| - 1;
    var last := views[n];
    var after, ids' := views[n := Stored(last, str, k)], ids[str := last.baseId + k];
    forall c | 0 <= c < |after| ensures SlotCounts(after, ids', c) {
      assert SlotCounts(views, ids, c);
    }
    forall c | 0 < c < |after| ensures Follows(after, c) {
      assert Follows(views, c);
    }
    forall s <- ids' ensures Contains(after, s) {
      if s == str {
        assert after[n].slots[k] == Some(str);
      } else {
        var c :| 0 <= c < |views| && Some(s) in views[c].slots;
        var l :| 0 <= l < |views[c].slots| && views[c].slots[l] == Some(s);
        assert after[c].slots[l] == Some(s);
      }
    }
  }

  /** An empty table is linked in. */
  lemma LinkingOne(views: seq<View>, ids: map<Text, int>, empty: View)
    requires IdsOk(views, ids) && views != [] && forall k :: 0 <= k < |empty.slots| ==> empty.slots[k] == None
    requires empty.baseId == views[|views| - 1].baseId + |views[|views| - 1].slots|
    ensures IdsOk(views + [empty], ids)
  {
    var after := views + [empty];
    forall c | 0 <= c < |after| ensures SlotCounts(after, ids, c) {
      if c < |views| {
        assert SlotCounts(views, ids, c);
      }
    }
    forall c | 0 < c < |after| ensures Follows(after, c) {
      assert c < |views| ==> Follows(views, c);
    }
    forall s <- ids ensures Contains(after, s) {
      var c :| 0 <= c < |views| && Some(s) in views[c].slots;
      assert Some(s) in after[c].slots;
    }
  }

  ghost function StoredLast(views: seq<View>, str: Text, k: nat): seq<View>
    requires views != [] && k < |views[|views| - 1].slots| == |views[|views| - 1].hashes|
  {
    views[|views| - 1 := Stored(views[|views| - 1], str, k)]
  }

  lemma ChainStores(views: seq<View>, ids: map<Text, int>, str: Text, k: nat, j: nat)
    requires ChainOk(views, ids) && views != [] && str !in ids
    requires var last := views[|views| - 1];
             && last.used < 4 * |last.slots| / 5
             && k == Probe(str, |last.slots|, j) && ProbedInVain(last.slots, str, j) && last.slots[k] == None
    ensures ChainOk(StoredLast(views, str, k), ids[str := views[|views| - 1].baseId + k])
  {
    StoredOk(views[|views| - 1], str, j);
    StoringOne(views, ids, str, k);
  }

  ghost function EmptyView(baseId: nat, size: nat): View {
    View(baseId, 0, seq(size, _ => None), seq(size, _ => 0))
  }

  lemma EmptyViewOk(baseId: nat, size: nat)
    requires size > 8 && Prime(size)
    ensures ViewOk(EmptyView(baseId, size))
  {
    NothingTaken(EmptyView(baseId, size).slots);
  }

  lemma ChainLinks(views: seq<View>, ids: map<Text, int>, baseId: nat, size: nat)
    requires ChainOk(views, ids) && views != [] && size == DEFAULT_HASH_TABLE_SIZE
    requires baseId == views[|views| - 1].baseId + |views[|views| - 1].slots|
    ensures ChainOk(views + [EmptyView(baseId, size)], ids)
  {
    DefaultSizeIsPrime();
    LinkingOne(views, ids, EmptyView(baseId, size));
    EmptyViewOk(baseId, size);
  }

  // ---------------------------------------------------------------- pairs of identifiers

  /** A pair of identifiers packed into 32 bits. */
  function Pair(name: int, sig: int): int {
    (name * 0x1_0000 + sig) % 0x1_0000_0000
  }

  ghost predicate PairsApart(limit: nat) {
    forall a, b, c, d :: 0 <= a < limit && 0 <= b < limit && 0 <= c < limit && 0 <= d < limit && Pair(a, b) == Pair(c, d) ==>
      a == c && b == d
  }

  lemma SmallPair(a: int, b: int)
    requires 0 <= a < 0x1_0000 && 0 <= b < 0x1_0000
    ensures Pair(a, b) == a * 0x1_0000 + b
  {
  }

  /** While both identifiers fit, the name's stands in the upper half and the signature's in the lower. */
  lemma PairReads(name: nat, sig: nat)
    requires name < 0x1_0000 && sig < 0x1_0000
    ensures Pair(name, sig) / 0x1_0000 == name && Pair(name, sig) % 0x1_0000 == sig
  {
    var p := name * 0x1_0000 + sig;
    assert 0 <= p < 0x1_0000_0000 && p % 0x1_0000_0000 == p;
  }

  /** Packing keeps pairs apart as long as identifiers take 16 bits; and no longer. */
  lemma PairsStayApart(limit: nat)
    ensures PairsApart(limit) <==> limit <= 0x1_0000
  {
    if limit > 0x1_0000 {
      assert Pair(0, 0) == Pair(0x1_0000, 0);
      assert !PairsApart(limit);
    } else {
      forall a, b, c, d | 0 <= a < limit && 0 <= b < limit && 0 <= c < limit && 0 <= d < limit && Pair(a, b) == Pair(c, d)
        ensures a == c && b == d
      {
        SmallPair(a, b);
        SmallPair(c, d);
      }
    }
  }

  /** So as long as identifiers take 16 bits, packed identifiers of names and signatures can stand for them. */
  lemma PairsIdentify(views: seq<View>, ids: map<Text, int>, a: Text, b: Text, c: Text, d: Text)
    requires ChainOk(views, ids) && {a, b, c, d} <= ids.Keys
    requires forall s <- {a, b, c, d} :: ids[s] < 0x1_0000
    ensures Pair(ids[a], ids[b]) == Pair(ids[c], ids[d]) <==> a == c && b == d
  {
    forall s <- ids ensures ids[s] >= 0 {
      IdsArePositive(views, ids, s);
    }
    hide ChainOk;
    SmallPair(ids[a], ids[b]);
    SmallPair(ids[c], ids[d]);
    if ids[a] == ids[c] && ids[b] == ids[d] {
      IdsInjective(views, ids, a, c);
      IdsInjective(views, ids, b, d);
    }
  }

  /** A valid chain of one unlocked table that has room for `count` strings. */
  ghost predicate Alone(t: Str2ID, count: nat)
    reads t, t.chain, set c <- t.chain :: c.strings, set c <- t.chain :: c.hashbits
  {
    t.Valid() && t.chain == [t] && !t.locked && t.overflowPoint >= count
  }

  lemma {:induction false} TotalGrows(views: seq<View>, m: nat, n: nat)
    requires m <= n <= |views|
    ensures TotalUsed(views, m) <= TotalUsed(views, n)
    decreases n
  {
    if m < n {
      TotalGrows(views, m, n - 1);
    }
  }

  lemma TableIsOk(views: seq<View>, ids: map<Text, int>, c: nat)
    requires ChainOk(views, ids) && c < |views|
    ensures ViewOk(views[c])
  {
  }

  lemma EvenIsNotPrime(n: nat)
    ensures n % 2 == 0 && Prime(n) ==> n == 2
  {
  }

  /** The first odd number from `size` on that the prime test accepts; there always is one. */
  method FirstPrime(size: nat) returns (n: nat)
    ensures IsTableSize(n, size)
  {
    hide Prime;
    n := if size % 2 == 0 then size + 1 else size;
    ghost var goal := PrimeAbove(n + 2);
    EvenIsNotPrime(size);
    EvenIsNotPrime(goal);
    var found := IsPrime(n);
    while !found
      invariant n % 2 == 1 && size <= n <= goal
      invariant n == 1 <==> size <= 1
      invariant found <==> n == 1 || Prime(n)
      invariant forall m :: size <= m < n && m != 2 ==> !Prime(m)
      decreases goal - n
    {
      EvenIsNotPrime(n + 1);
      n := n + 2;
      found := IsPrime(n);
    }
  }

  // ---------------------------------------------------------------- the tables

  class Str2ID {
    const hashTableSize: nat
    const overflowPoint: nat
    const strings: array<Option<Text>>
    const hashbits: array<nat>
    var used: nat
    var baseId: nat
    var next: Str2ID?
    var locked: bool
    /** Of the first table of a chain: all its tables, what they hold, and the identifiers given so far. */
    ghost var chain: seq<Str2ID>
    ghost var views: seq<View>
    ghost var ids: map<Text, int>

    /** The fields of this table show the view. */
    ghost predicate IsTable(v: View, after: Str2ID?)
      reads this`baseId, this`used, this`next, strings, hashbits
    {
      && strings.Length == hashbits.Length == hashTableSize && overflowPoint == 4 * hashTableSize / 5
      && baseId == v.baseId && used == v.used && strings[..] == v.slots && hashbits[..] == v.hashes && next == after
    }

    /** The tables of the chain are different objects. */
    ghost predicate Apart()
      reads this`chain
    {
      forall i, j :: 0 <= i < j < |chain| ==>
        chain[i] != chain[j] && chain[i].strings != chain[j].strings && chain[i].hashbits != chain[j].hashbits
    }

    ghost function After(i: nat): Str2ID?
      reads this`chain
    {
      if i + 1 < |chain| then chain[i + 1] else null
    }

    ghost predicate TableAt(i: nat)
      requires i < |chain| == |views|
      reads this`chain, this`views, chain`baseId, chain`used, chain`next
      reads set c <- chain :: c.strings, set c <- chain :: c.hashbits
    {
      chain[i].IsTable(views[i], After(i))
    }

    /** The tables of the chain hold what the views say. */
    ghost predicate Linked()
      reads this`chain, this`views, chain`baseId, chain`used, chain`next
      reads set c <- chain :: c.strings, set c <- chain :: c.hashbits
    {
      && chain != [] && chain[0] == this && Apart() && |views| == |chain|
      && forall i {:trigger TableAt(i)} :: 0 <= i < |chain| ==> TableAt(i)
    }

    lemma Shown(n: nat)
      requires Linked() && n < |chain|
      ensures |views| == |chain| && chain[n].IsTable(views[n], After(n)) && chain[n].next == After(n)
    {
      assert TableAt(n);
    }

    ghost predicate Valid()
      reads this`chain, this`views, this`ids, chain`baseId, chain`used, chain`next
      reads set c <- chain :: c.strings, set c <- chain :: c.hashbits
    {
      Linked() && ChainOk(views, ids)
    }

    constructor ()
      ensures hashTableSize == DEFAULT_HASH_TABLE_SIZE
      ensures baseId == 1 && used == 0 && next == null && !locked && fresh(strings) && fresh(hashbits)
      ensures IsTable(EmptyView(1, hashTableSize), null) && ViewOk(EmptyView(1, hashTableSize))
      ensures chain == [this] && views == [EmptyView(1, hashTableSize)] && ids == map[] && Valid()
    {
      hashTableSize := DEFAULT_HASH_TABLE_SIZE;
      overflowPoint := 4 * DEFAULT_HASH_TABLE_SIZE / 5;
      strings := new Option<Text>[DEFAULT_HASH_TABLE_SIZE](_ => None);
      hashbits := new nat[DEFAULT_HASH_TABLE_SIZE](_ => 0);
      used, baseId, next, locked := 0, 1, null, false;
      chain, views, ids := [this], [EmptyView(1, DEFAULT_HASH_TABLE_SIZE)], map[];
      new;
      DefaultSizeIsPrime();
      EmptyViewOk(1, DEFAULT_HASH_TABLE_SIZE);
    }

    /** A table of the first prime size that is at least `size` and odd; of size 1, which is no prime, if `size` is at most 1. */
    constructor Sized(size: nat)
      ensures IsTableSize(hashTableSize, size)
      ensures overflowPoint == 4 * hashTableSize / 5
      ensures baseId == 1 && used == 0 && next == null && !locked && fresh(strings) && fresh(hashbits)
      ensures chain == [this] && views == [EmptyView(1, hashTableSize)] && ids == map[]
      ensures hashTableSize > 8 ==> Valid()
    {
      var n := FirstPrime(size);
      hashTableSize := n;
      overflowPoint := 4 * n / 5;
      strings := new Option<Text>[n](_ => None);
      hashbits := new nat[n](_ => 0);
      used, baseId, next, locked := 0, 1, null, false;
      chain, views, ids := [this], [EmptyView(1, n)], map[];
      new;
      if n > 8 {
        EmptyViewOk(1, n);
      }
    }

    // --------------------------------------------------------------- one table

    /** Probes this table until the string or an empty slot is met. */
    method Search(str: Text, hash: nat, ghost v: View) returns (found: bool, index: nat, ghost j: nat)
      requires IsTable(v, next) && ViewOk(v) && hash == Hash(str)
      ensures j < hashTableSize == |v.slots| && index == Probe(str, hashTableSize, j) && ProbedInVain(v.slots, str, j)
      ensures v.slots[index] == if found then Some(str) else None
    {
      var phash, secondaryHash := hash % 0x8000_0000, hash % 8 + 1;
      ghost var last := ProbingEnds(v.slots, str);
      index := hash % hashTableSize;
      j := 0;
      while strings[index] != None
        invariant j <= last && index == Probe(str, hashTableSize, j) && ProbedInVain(v.slots, str, j)
        decreases last - j
      {
        assert strings[index] == v.slots[index] && hashbits[index] == v.hashes[index];
        if hashbits[index] == phash && strings[index].value == str {
          return true, index, j;
        }
        index := StepBack(index, secondaryHash, hashTableSize);
        j := j + 1;
      }
      found := false;
    }

    /** Puts a new string where searching for it ended. */
    method Put(str: Text, index: nat, phash: nat, ghost v: View)
      requires IsTable(v, next) && index < hashTableSize && phash == PositiveHash(str)
      modifies this`used, strings, hashbits
      ensures index < |v.slots| == |v.hashes| && IsTable(Stored(v, str, index), next)
    {
      strings[index] := Some(str);
      hashbits[index] := phash;
      used := used + 1;
    }

    // --------------------------------------------------------------- the chain

    ghost function Last(): Str2ID
      requires chain != []
      reads this`chain
    {
      chain[|chain| - 1]
    }

    lemma LastShown()
      requires Valid()
      ensures chain != [] && |views| == |chain|
      ensures var v := views[|views| - 1];
              && |v.slots| == |v.hashes| == Last().hashTableSize && v.used == Last().used && v.baseId == Last().baseId
              && Last().overflowPoint == 4 * |v.slots| / 5
    {
      Shown(|chain| - 1);
      TableIsOk(views, ids, |chain| - 1);
    }

    /** Looks the string up in every table; says where the search in the last one ended. */
    method SearchChain(str: Text, hash: nat) returns (found: bool, id: int, last: Str2ID, index: nat, ghost j: nat)
      requires Valid() && hash == Hash(str)
      ensures found <==> str in ids
      ensures found ==> id == ids[str]
      ensures !found ==> last == Last()
      ensures !found ==> var slots := views[|views| - 1].slots;
                         index == Probe(str, |slots|, j) && ProbedInVain(slots, str, j) && slots[index] == None
    {
      last := this;
      ghost var n := 0;
      while true
        invariant n < |chain| && last == chain[n]
        invariant forall i :: 0 <= i < n ==> Some(str) !in views[i].slots
        decreases |chain| - n
      {
        assert TableAt(n);
        found, index, j := last.Search(str, hash, views[n]);
        if found {
          assert SlotCounts(views, ids, n);
          return true, last.baseId + index, last, index, j;
        }
        EndedMeansAbsent(views[n].slots, str, j);
        if last.next == null {
          assert !Contains(views, str);
          return false, 0, last, index, j;
        }
        last := last.next;
        n := n + 1;
      }
    }

    /** Puts a new string into the last table. */
    method Enter(str: Text, last: Str2ID, index: nat, phash: nat)
      requires Linked() && last == Last() && phash == PositiveHash(str)
      requires index < |views[|views| - 1].slots| == |views[|views| - 1].hashes|
      modifies this`views, last`used, last.strings, last.hashbits
      ensures Linked() && views == StoredLast(old(views), str, index) && last.used == old(last.used) + 1
    {
      assert TableAt(|chain| - 1);
      last.Put(str, index, phash, views[|views| - 1]);
      views := StoredLast(views, str, index);
      forall i | 0 <= i < |chain| - 1 ensures TableAt(i) {
        assert old(TableAt(i));
      }
      assert TableAt(|chain| - 1);
    }

    method Store(str: Text, hash: nat, last: Str2ID, index: nat, ghost j: nat) returns (id: int)
      requires Valid() && last == Last() && str !in ids && hash == Hash(str) && last.used < last.overflowPoint
      requires var slots := views[|views| - 1].slots;
               index == Probe(str, |slots|, j) && ProbedInVain(slots, str, j) && slots[index] == None
      modifies this`views, this`ids, last`used, last.strings, last.hashbits
      ensures Valid() && ids == old(ids)[str := id] && last.used == old(last.used) + 1
      ensures |views| == |old(views)| && views[..|views| - 1] == old(views)[..|views| - 1]
    {
      hide ChainOk, Linked;
      LastShown();
      ChainStores(views, ids, str, index, j);
      Enter(str, last, index, hash % 0x8000_0000);
      id := last.baseId + index;
      ids := ids[str := id];
    }

    /** Links a new table of the default size behind this one. */
    method AddNext(ghost v: View) returns (added: Str2ID)
      requires IsTable(v, null)
      modifies this`next
      ensures IsTable(v, added) && fresh(added) && fresh(added.strings) && fresh(added.hashbits)
      ensures added.IsTable(EmptyView(baseId + |v.slots|, DEFAULT_HASH_TABLE_SIZE), null)
    {
      added := new Str2ID();
      added.baseId := baseId + hashTableSize;
      next := added;
    }

    /** Links in another table of the default size. */
    method Overflow(last: Str2ID) returns (added: Str2ID)
      requires Linked() && last == Last()
      modifies this`chain, this`views, last`next
      ensures Linked() && chain == old(chain) + [added] && fresh(added) && fresh(added.strings) && fresh(added.hashbits)
      ensures views == old(views) + [EmptyView(last.baseId + |old(views)[|old(views)| - 1].slots|, DEFAULT_HASH_TABLE_SIZE)]
    {
      hide IsTable;
      ghost var n := |chain| - 1;
      assert TableAt(n);
      added := last.AddNext(views[n]);
      views := views + [EmptyView(last.baseId + |views[n].slots|, DEFAULT_HASH_TABLE_SIZE)];
      chain := chain + [added];
      assert TableAt(n) && TableAt(n + 1);
      forall i | 0 <= i < n ensures TableAt(i) {
        assert old(TableAt(i));
      }
    }

    /** Enters a new string in one more table of the default size. */
    method StoreInNew(str: Text, hash: nat, last: Str2ID) returns (id: int)
      requires Valid() && last == Last() && str !in ids && hash == Hash(str)
      modifies this`chain, this`views, this`ids, last`next
      ensures Valid() && ids == old(ids)[str := id]
      ensures |chain| == |old(chain)| + 1 && old(chain) <= chain && views[..|old(views)|] == old(views)
      ensures fresh(Last()) && fresh(Last().strings) && fresh(Last().hashbits)
    {
      assert TableAt(|chain| - 1);
      ChainLinks(views, ids, last.baseId + |views[|views| - 1].slots|, DEFAULT_HASH_TABLE_SIZE);
      hide ChainOk;
      var added := Overflow(last);
      assert TableAt(|chain| - 1);
      id := Store(str, hash, added, hash % added.hashTableSize, 0);
    }

    /** Enters a new string where the search in the last table ended, or in one more table if the last is too full. */
    method AddNew(str: Text, hash: nat, last: Str2ID, index: nat, ghost j: nat) returns (id: int)
      requires Valid() && last == Last() && str !in ids && hash == Hash(str)
      requires var slots := views[|views| - 1].slots;
               index == Probe(str, |slots|, j) && ProbedInVain(slots, str, j) && slots[index] == None
      modifies this`chain, this`views, this`ids, last`used, last`next, last.strings, last.hashbits
      ensures Valid() && ids == old(ids)[str := id]
      ensures old(chain) <= chain && forall c <- chain[|old(chain)|..] :: fresh(c) && fresh(c.strings) && fresh(c.hashbits)
      ensures old(last.used < last.overflowPoint) ==> chain == old(chain) && last.used == old(last.used) + 1
      ensures old(last.used >= last.overflowPoint) ==> |chain| == |old(chain)| + 1 && views[..|old(views)|] == old(views)
    {
      hide ChainOk, Linked;
      if last.used >= last.overflowPoint {
        id := StoreInNew(str, hash, last);
        assert chain[|old(chain)|..] == [Last()];
      } else {
        id := Store(str, hash, last, index, j);
      }
    }

    /** The identifier of a string: the one it has, or a new one unless the table is locked. */
    method GetID(str: Text) returns (ok: bool, id: int)
      requires Valid()
      modifies this`chain, this`views, this`ids, Last()`used, Last()`next, Last().strings, Last().hashbits
      ensures Valid()
      ensures ok <==> str in old(ids) || !locked
      ensures ids == if ok then old(ids)[str := id] else old(ids)
      ensures str in old(ids) ==> id == old(ids)[str] && chain == old(chain) && views == old(views)
      ensures old(chain) <= chain && forall c <- chain[|old(chain)|..] :: fresh(c) && fresh(c.strings) && fresh(c.hashbits)
      ensures old(Last().used < Last().overflowPoint) ==> chain == old(chain) && Last().used <= old(Last().used) + 1
    {
      var hash := HashString(str);
      var found, index, last;
      ghost var j;
      found, id, last, index, j := SearchChain(str, hash);
      if found || locked {
        return found, id;
      }
      id := AddNew(str, hash, last, index, j);
      ok := true;
    }

    /** The packed identifiers of a name and a signature. */
    method GetPairID(name: Text, sig: Text) returns (ok: bool, id: int)
      requires Valid() && !locked
      modifies this`chain, this`views, this`ids, Last()`used, Last()`next, Last().strings, Last().hashbits
      ensures ok && Valid() && name in ids && sig in ids && id == Pair(ids[name], ids[sig])
      ensures forall s <- old(ids) :: s in ids && ids[s] == old(ids[s])
    {
      hide ChainOk;
      var a, b;
      ok, a := GetID(name);
      ok, b := GetID(sig);
      id := (a * 0x1_0000 + b) % 0x1_0000_0000;
    }

    /** The number of strings in the chain. */
    method Count() returns (count: nat)
      requires Valid()
      ensures count == TotalUsed(views, |views|)
    {
      count := 0;
      var c: Str2ID? := this;
      ghost var n := 0;
      while c != null
        invariant n <= |chain| && c == (if n < |chain| then chain[n] else null)
        invariant count == TotalUsed(views, n)
        decreases |chain| - n
      {
        assert TableAt(n);
        count := count + c.used;
        c := c.next;
        n := n + 1;
      }
    }

    /** Enters the string of one slot, if there is one, into another table. */
    method MoveOne(newchain: Str2ID, i: nat, ghost v: View, ghost count: nat)
      requires IsTable(v, next) && i < hashTableSize && Alone(newchain, count)
      requires v.slots[i] != None ==> newchain.used < count
      requires newchain != this && newchain.strings != strings && newchain.hashbits != hashbits
      modifies newchain, newchain.strings, newchain.hashbits
      ensures IsTable(v, next) && Alone(newchain, count)
      ensures newchain.used <= old(newchain.used) + (if v.slots[i] == None then 0 else 1)
      ensures forall s :: s in newchain.ids <==> s in old(newchain.ids) || v.slots[i] == Some(s)
    {
      hide ChainOk, Linked;
      var slot := strings[i];
      if slot != None {
        var ok, id := newchain.GetID(slot.value);
      }
    }

    /** Enters every string of this table into another one. */
    method Move(newchain: Str2ID, ghost v: View, ghost count: nat)
      requires IsTable(v, next) && v.used == Taken(v.slots) && Alone(newchain, count) && newchain.used + v.used <= count
      requires newchain != this && newchain.strings != strings && newchain.hashbits != hashbits
      modifies newchain, newchain.strings, newchain.hashbits
      ensures Alone(newchain, count) && newchain.used <= old(newchain.used) + v.used
      ensures forall s :: s in newchain.ids <==> s in old(newchain.ids) || Some(s) in v.slots
    {
      hide Alone, Taken, StandsFrom;
      var i := hashTableSize;
      NothingFrom(v.slots);
      while i > 0
        invariant 0 <= i <= hashTableSize && IsTable(v, next)
        invariant Alone(newchain, count) && newchain.used + Taken(v.slots[..i]) <= old(newchain.used) + v.used
        invariant forall s :: s in newchain.ids <==> s in old(newchain.ids) || StandsFrom(v.slots, i, s)
        decreases i
      {
        i := i - 1;
        OneFrom(v.slots, i);
        MoveOne(newchain, i, v, count);
      }
      AllFrom(v.slots);
    }

    /** Another table, with room for `count` strings, has nothing in common with this chain. */
    ghost predicate Elsewhere(newchain: Str2ID, count: nat)
      requires |chain| == |views|
      reads this`chain, this`views
      reads newchain, newchain.chain, set c <- newchain.chain :: c.strings, set c <- newchain.chain :: c.hashbits
    {
      && Alone(newchain, count) && TotalUsed(views, |views|) <= count && newchain != this
      && forall c <- chain :: newchain != c && newchain.strings != c.strings && newchain.hashbits != c.hashbits
    }

    /** Enters every string of table `n` of the chain into the other table, which has those of the tables before. */
    method MoveTable(c: Str2ID, ghost n: nat, newchain: Str2ID, ghost count: nat)
      requires Valid() && n < |chain| == |views| && c == chain[n] && Elsewhere(newchain, count)
      requires newchain.used <= TotalUsed(views, n) && forall s :: s in newchain.ids <==> InFirst(views, n, s)
      modifies newchain, newchain.strings, newchain.hashbits
      ensures Valid() && |chain| == |views| && Elsewhere(newchain, count)
      ensures newchain.used <= TotalUsed(views, n + 1) && forall s :: s in newchain.ids <==> InFirst(views, n + 1, s)
    {
      hide ChainOk, Linked, IsTable, InFirst, Alone;
      Shown(n);
      TotalGrows(views, n + 1, |views|);
      TableIsOk(views, ids, n);
      UsedIsTaken(views[n]);
      c.Move(newchain, views[n], count);
      OneMoreFirst(views, n);
    }

    /** Enters every string of the chain into the other table. */
    method MoveAll(newchain: Str2ID, ghost count: nat)
      requires Valid() && |chain| == |views| && Elsewhere(newchain, count) && newchain.used == 0 && newchain.ids == map[]
      modifies newchain, newchain.strings, newchain.hashbits
      ensures Alone(newchain, count) && newchain.ids.Keys == ids.Keys
    {
      assert |chain| > 0 && chain[0] == this;
      hide ChainOk, Linked, InFirst, Alone;
      NobodyFirst(views);
      var c: Str2ID? := this;
      ghost var n := 0;
      while c != null
        invariant n <= |chain| == |views| && c == (if n < |chain| then chain[n] else null)
        invariant Valid() && Elsewhere(newchain, count) && newchain.used <= TotalUsed(views, n)
        invariant forall s :: s in newchain.ids <==> InFirst(views, n, s)
        decreases |chain| - n
      {
        MoveTable(c, n, newchain, count);
        Shown(n);
        c := c.next;
        n := n + 1;
      }
      EveryoneFirst(views, ids);
    }

    /** A fresh table large enough for all strings; if there are at least 6, it takes them all without a second table. */
    method Rehash() returns (newchain: Str2ID)
      requires Valid() && |ids| >= 6
      ensures fresh(newchain) && newchain.Valid() && newchain.chain == [newchain] && newchain.ids.Keys == ids.Keys
    {
      hide ChainOk;
      StringCount(views, ids);
      var count := Count();
      newchain := new Str2ID.Sized((5 * count + 3) / 4);
      EvenIsNotPrime(8);
      assert newchain.hashTableSize > 8 && newchain.overflowPoint >= count;
      MoveAll(newchain, count);
    }
  }

  /** Any calls in a row: equal strings get equal identifiers, different strings different ones. */
  method GetIDs(table: Str2ID, strs: seq<Text>) returns (given: seq<int>)
    requires table.Valid() && !table.locked
    modifies table`chain, table`views, table`ids
    modifies table.Last()`used, table.Last()`next, table.Last().strings, table.Last().hashbits
    ensures |given| == |strs| && forall i, j :: 0 <= i < |strs| && 0 <= j < |strs| ==> (given[i] == given[j] <==> strs[i] == strs[j])
  {
    hide ChainOk;
    given := [];
    ghost var start := table.chain;
    for i := 0 to |strs|
      invariant table.Valid() && start <= table.chain
      invariant forall c <- table.chain[|start|..] :: fresh(c) && fresh(c.strings) && fresh(c.hashbits)
      invariant |given| == i && forall k :: 0 <= k < i ==> strs[k] in table.ids && table.ids[strs[k]] == given[k]
    {
      var ok, id := table.GetID(strs[i]);
      given := given + [id];
    }
    forall i, j | 0 <= i < |strs| && 0 <= j < |strs| && given[i] == given[j] ensures strs[i] == strs[j] {
      IdsInjective(table.views, table.ids, strs[i], strs[j]);
    }
  }
}
