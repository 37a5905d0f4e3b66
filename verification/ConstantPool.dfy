/**
 A pool of constants without duplicates. Adding an entry first adds its components, so every
 component stands before its users; dropping unused entries keeps all of this.
 */
module Pools {
  import opened Constants
  import opened SlotTable
  import opened Interning
  import opened PoolFormat
  import opened Wrappers

  ghost function Image(t: seq<ConstantObject?>): (r: seq<Slot>)
    ensures |r| == |t|
    ensures forall i :: 0 <= i < |t| ==> r[i] == (if t[i] == null then Blank else Entry(t[i].value))
  {
    seq(|t|, i requires 0 <= i < |t| => if t[i] == null then Blank else Entry(t[i].value))
  }

  // ------------------------------------------------ the state of a pool, as values

  /** What is known of an entry: whether it is a member of this pool, whether of any, its index and its components. */
  datatype Mark = Mark(mine: bool, shared: bool, index: int, parts: seq<ConstantObject>)

  /** The table, the hash table, and the entries known, inside the pool or not. */
  datatype State = State(t: seq<ConstantObject?>, h: map<Value, ConstantObject>, marks: map<ConstantObject, Mark>)

  /** The entry at slot `i` knows it is a member, at that index, and is found by its value. */
  ghost predicate MemberAt(m: State, i: nat)
    requires i < |m.t|
  {
    m.t[i] != null ==>
      var c: ConstantObject := m.t[i];
      && c in m.marks && m.marks[c].mine && m.marks[c].index == i
      && c.value in m.h && m.h[c.value] == c
  }

  /** Component `k` of a known entry is known, means what it should, and for a member is a member before it. */
  ghost predicate PartOk(m: State, c: ConstantObject, k: nat)
    requires c in m.marks && k < |m.marks[c].parts| == |Parts(c.value)|
  {
    var p := m.marks[c].parts[k];
    && p in m.marks && p.value == Parts(c.value)[k]
    && (m.marks[c].mine ==> m.marks[p].mine && m.marks[p].index < m.marks[c].index)
  }

  ghost predicate MarkOk(m: State, c: ConstantObject)
    requires c in m.marks
  {
    var k := m.marks[c];
    && (k.mine ==> k.shared && 0 <= k.index < |m.t| && m.t[k.index] == c)
    && |k.parts| == |Parts(c.value)|
    && (|k.parts| > 0 ==> PartOk(m, c, 0))
    && (|k.parts| > 1 ==> PartOk(m, c, 1))
  }

  ghost predicate HashOk(m: State, v: Value)
    requires v in m.h
  {
    m.h[v].value == v && m.h[v] in m.marks && m.marks[m.h[v]].mine
  }

  /** Table, hash table and marks agree; no value occurs twice; components stand before their users. */
  ghost predicate Ok(m: State) {
    && TableOk(m.t)
    && (forall i {:trigger MemberAt(m, i)} :: 0 <= i < |m.t| ==> MemberAt(m, i))
    && (forall v {:trigger HashOk(m, v)} :: v in m.h ==> HashOk(m, v))
    && (forall c {:trigger MarkOk(m, c)} :: c in m.marks ==> MarkOk(m, c))
  }

  /** What an operation on `self` leaves alone: members of any pool, and entries that are no components of `self`. */
  ghost predicate Settled(k: Mark, c: ConstantObject, touched: int, self: ConstantObject?) {
    k.mine || k.shared || Rank(c.value) > touched || (Rank(c.value) == touched && c != self)
  }

  /**
   What every adding operation keeps: the pool only grows, by values of at most rank `added`; of the entries
   known before only `self` and entries of a rank below `touched` change, and only if no pool has them.
   */
  ghost predicate Grown(m: State, m': State, added: int, touched: int, self: ConstantObject?) {
    && m.t <= m'.t
    && (forall v <- m.h :: v in m'.h && m'.h[v] == m.h[v])
    && (forall v <- m'.h :: v in m.h || Rank(v) <= added)
    && (forall c <- m.marks :: c in m'.marks && (Settled(m.marks[c], c, touched, self) ==> m'.marks[c] == m.marks[c]))
  }

  lemma NotGrown(m: State, added: int, touched: int, self: ConstantObject?)
    ensures Grown(m, m, added, touched, self)
  {
  }

  lemma StaysSettled(m: State, m': State, added: int, touched: int, self: ConstantObject?, c: ConstantObject)
    requires Grown(m, m', added, touched, self) && c in m.marks && Settled(m.marks[c], c, touched, self)
    ensures c in m'.marks && m'.marks[c] == m.marks[c]
  {
  }

  lemma GrownTwice(m: State, m1: State, m2: State, a1: int, t1: int, s1: ConstantObject?, a2: int, t2: int, s2: ConstantObject?,
                   added: int, touched: int, self: ConstantObject?)
    requires Grown(m, m1, a1, t1, s1) && Grown(m1, m2, a2, t2, s2)
    requires a1 <= added && a2 <= added && t1 <= touched && t2 <= touched
    requires t1 == touched ==> s1 == self || s1 !in m.marks
    requires t2 == touched ==> s2 == self || s2 !in m.marks
    ensures Grown(m, m2, added, touched, self)
  {
    forall c <- m.marks ensures c in m2.marks && (Settled(m.marks[c], c, touched, self) ==> m2.marks[c] == m.marks[c]) {
      if Settled(m.marks[c], c, touched, self) {
        assert Settled(m.marks[c], c, t1, s1) && Settled(m1.marks[c], c, t2, s2);
      }
    }
  }

  /** A new, unshared entry becomes known. */
  ghost function Known(m: State, c: ConstantObject, parts: seq<ConstantObject>): State {
    m.(marks := m.marks[c := Mark(false, false, 0, parts)])
  }

  lemma KnownOk(m: State, c: ConstantObject, of: ConstantObject)
    requires Ok(m) && c !in m.marks && of in m.marks && c.value == of.value
    ensures var m' := Known(m, c, m.marks[of].parts); Ok(m') && Grown(m, m', -1, -1, null)
  {
    var m' := Known(m, c, m.marks[of].parts);
    assert MarkOk(m, of);
    forall d <- m'.marks ensures MarkOk(m', d) {
      if d != c {
        assert MarkOk(m, d);
      }
    }
    forall i | 0 <= i < |m'.t| ensures MemberAt(m', i) {
      assert MemberAt(m, i);
    }
    forall v <- m'.h ensures HashOk(m', v) {
      assert HashOk(m, v);
    }
  }

  /** A component of an unshared entry is replaced by an equal one. */
  ghost function WithPart(m: State, c: ConstantObject, k: nat, p: ConstantObject): State
    requires c in m.marks && k < |m.marks[c].parts|
  {
    m.(marks := m.marks[c := m.marks[c].(parts := m.marks[c].parts[k := p])])
  }

  lemma WithPartOk(m: State, c: ConstantObject, k: nat, p: ConstantObject)
    requires Ok(m) && c in m.marks && !m.marks[c].shared && p in m.marks
    requires k < |m.marks[c].parts| && p.value == m.marks[c].parts[k].value
    ensures var m' := WithPart(m, c, k, p); Ok(m') && Grown(m, m', -1, Rank(c.value), c)
  {
    var m' := WithPart(m, c, k, p);
    forall d <- m'.marks ensures MarkOk(m', d) {
      assert MarkOk(m, d);
    }
    forall i | 0 <= i < |m'.t| ensures MemberAt(m', i) {
      assert MemberAt(m, i);
    }
    forall v <- m'.h ensures HashOk(m', v) {
      assert HashOk(m, v);
    }
  }

  /** An unshared entry whose components are members takes the next free index. */
  ghost function Registered(m: State, c: ConstantObject): State
    requires c in m.marks
  {
    State(m.t + Room(c), m.h[c.value := c], m.marks[c := Mark(true, true, |m.t|, m.marks[c].parts)])
  }

  ghost predicate PartsMine(m: State, c: ConstantObject)
    requires c in m.marks
  {
    forall k :: 0 <= k < |m.marks[c].parts| ==> m.marks[c].parts[k] in m.marks && m.marks[m.marks[c].parts[k]].mine
  }

  lemma RegisteredMark(m: State, c: ConstantObject, d: ConstantObject)
    requires Ok(m) && c in m.marks && !m.marks[c].shared && PartsMine(m, c) && d in m.marks
    ensures MarkOk(Registered(m, c), d)
  {
    var m' := Registered(m, c);
    assert MarkOk(m, c) && MarkOk(m, d);
    forall k | 0 <= k < |m.marks[d].parts| ensures PartOk(m', d, k) {
      var p := m.marks[d].parts[k];
      assert PartOk(m, d, k);
      assert MarkOk(m, p);
    }
  }

  lemma RegisteredMember(m: State, c: ConstantObject, i: nat)
    requires Ok(m) && c in m.marks && !m.marks[c].shared && c.value !in m.h && i < |Registered(m, c).t|
    ensures MemberAt(Registered(m, c), i)
  {
    if i < |m.t| {
      assert MemberAt(m, i);
      assert MarkOk(m, c);
    }
  }

  lemma RegisteredOk(m: State, c: ConstantObject)
    requires Ok(m) && c in m.marks && !m.marks[c].shared && c.value !in m.h && PartsMine(m, c)
    ensures var m' := Registered(m, c); Ok(m') && Grown(m, m', Rank(c.value), Rank(c.value), c)
  {
    var m' := Registered(m, c);
    AppendIsTable(m.t, c);
    assert MarkOk(m, c);
    forall d <- m'.marks ensures MarkOk(m', d) {
      RegisteredMark(m, c, d);
    }
    forall i | 0 <= i < |m'.t| ensures MemberAt(m', i) {
      RegisteredMember(m, c, i);
    }
    forall v <- m'.h ensures HashOk(m', v) {
      if v != c.value {
        assert HashOk(m, v);
      }
    }
  }

  lemma ImageAppended(t: seq<ConstantObject?>, c: ConstantObject)
    ensures Image(t + Room(c)) == Appended(Image(t), c.value)
  {
  }

  // ------------------------------------------------ what the invariant gives

  /** The members of a pool. */
  ghost function Members(m: State): set<ConstantObject> {
    set c <- m.marks | m.marks[c].mine
  }

  lemma MemberAtSlot(m: State, i: nat)
    requires Ok(m) && i < |m.t| && m.t[i] != null
    ensures m.t[i] in Members(m) && m.marks[m.t[i]].index == i
  {
    assert MemberAt(m, i);
  }

  lemma MemberIsInterned(m: State, c: ConstantObject)
    requires Ok(m) && c in m.marks && m.marks[c].mine
    ensures Entry(c.value) in Image(m.t) && c.value in m.h && m.h[c.value] == c
    ensures 0 < m.marks[c].index < |m.t| && m.t[m.marks[c].index] == c
  {
    assert MarkOk(m, c) && MemberAt(m, m.marks[c].index);
    assert Image(m.t)[m.marks[c].index] == Entry(c.value);
  }

  lemma HashedIsInterned(m: State, v: Value)
    requires Ok(m) && v in m.h
    ensures Entry(v) in Image(m.t) && m.h[v] in m.marks && m.marks[m.h[v]].mine && m.h[v].value == v
    ensures 0 < m.marks[m.h[v]].index < |m.t| && m.t[m.marks[m.h[v]].index] == m.h[v]
  {
    assert HashOk(m, v);
    MemberIsInterned(m, m.h[v]);
  }

  lemma AbsentIsNotInterned(m: State, v: Value)
    requires Ok(m) && v !in m.h
    ensures Entry(v) !in Image(m.t)
  {
    forall i | 0 <= i < |m.t| ensures Image(m.t)[i] != Entry(v) {
      assert MemberAt(m, i);
    }
  }

  lemma PartsBefore(m: State, i: nat)
    requires Ok(m) && i < |m.t| && m.t[i] != null
    ensures forall p <- Parts(m.t[i].value) :: Entry(p) in Image(m.t)[..i]
  {
    var c: ConstantObject := m.t[i];
    assert MemberAt(m, i) && MarkOk(m, c);
    forall k | 0 <= k < |Parts(c.value)| ensures Entry(Parts(c.value)[k]) in Image(m.t)[..i] {
      assert PartOk(m, c, k);
      var p := m.marks[c].parts[k];
      assert MarkOk(m, p);
      assert Image(m.t)[..i][m.marks[p].index] == Entry(p.value);
    }
  }

  /** What the class's invariant means on values: the pool's image is one that adding produces. */
  lemma OkIsFine(m: State)
    requires Ok(m)
    ensures Fine(Image(m.t))
  {
    var image := Image(m.t);
    forall i | 1 <= i < |image| ensures SlotFine(image, i) {
      assert SlotOk(m.t, i) && MemberAt(m, i);
      if m.t[i] != null {
        PartsBefore(m, i);
      }
    }
    forall i, j | 0 <= i < j < |image| && image[i].Entry? ensures image[i] != image[j] {
      assert MemberAt(m, i) && MemberAt(m, j);
    }
  }

  /** Any pool, compacted or not, is read back into an empty pool just as it was, exactly when its slots fit a short. */
  lemma PoolReadsBack(m: State)
    requires Ok(m)
    ensures ReadTable(WritePool(Image(m.t))) == Some(Image(m.t)) <==> |m.t| < 0x1_0000
    ensures InternTable([Blank], Image(m.t), 1) == Image(m.t)
  {
    OkIsFine(m);
    RoundTrip(Image(m.t));
  }

  // ------------------------------------------------- class-file form, one entry at a time

  /** Writes a resolved entry: its tag, then its data or the indices of its components. */
  method WriteConstant(c: ConstantObject, ghost image: seq<Slot>) returns (items: seq<Item>)
    requires |c.parts| == |Parts(c.value)|
    requires forall k :: 0 <= k < |c.parts| ==> c.parts[k].index == IndexOf(image, Parts(c.value)[k])
    ensures items == WriteEntry(image, c.value)
  {
    match c.value
    case Utf8(s) => items := [U1(CONSTANT_UTF8), Utf(s)];
    case Single(k, word) => items := [U1(SingleTag(k)), I4(word)];
    case Double(k, high, low) => items := [U1(DoubleTag(k)), I4(high), I4(low)];
    case Str(_) => items := [U1(CONSTANT_STRING), U2(c.parts[0].index % 0x1_0000)];
    case NameAndType(_, _) =>
      items := [U1(CONSTANT_NAMEANDTYPE), U2(c.parts[0].index % 0x1_0000), U2(c.parts[1].index % 0x1_0000)];
    case Class(_) => items := [U1(CONSTANT_CLASS), U2(c.parts[0].index % 0x1_0000)];
    case Ref(k, _, _, _) => items := [U1(RefTag(k)), U2(c.parts[1].index % 0x1_0000), U2(c.parts[0].index % 0x1_0000)];
  }

  /** Entries read in one piece have no components. */
  ghost predicate Simple(table: seq<Raw>) {
    forall i :: 0 <= i < |table| && table[i].Plain? ==> Parts(table[i].value) == []
  }

  method ReadRaw(items: seq<Item>) returns (r: Option<seq<Raw>>)
    ensures r == ReadSlots(items)
    ensures r.Some? ==> Simple(r.value)
  {
    if |items| == 0 || !items[0].U2? {
      return None;
    }
    var n, rest := items[0].w, items[1..];
    var table := [NoEntry];
    while |table| < n
      invariant ReadEntries(rest, table, n) == ReadEntries(items[1..], [NoEntry], n) && Simple(table)
      decreases |rest|
    {
      match ReadEntry(rest)
      case None => return None;
      case Some((raw, left)) =>
        table := table + (if RawSlots(raw) == 2 then [raw, NoEntry] else [raw]);
        rest := left;
    }
    return Some(table);
  }

  method CheckIndices(table: seq<Raw>, n: int) returns (ok: bool)
    ensures ok <==> Castable(table, n)
  {
    for i := 0 to |table|
      invariant forall k :: 0 <= k < i ==> CastsAt(table, n, k)
    {
      if !CastsAt(table, n, i) {
        return false;
      }
    }
    return true;
  }

  /** What the entry at a slot means; nothing if it lacks a component. */
  ghost function Meaning(table: seq<Raw>, i: nat): Slot
    requires i < |table|
  {
    match Resolve(table, i)
    case Some(slot) => slot
    case None => Blank
  }

  /** The objects stand for the entries that have a meaning. */
  ghost predicate Shows(c: seq<ConstantObject?>, table: seq<Raw>) {
    |c| == |table| && forall i :: 0 <= i < |c| ==> Image(c)[i] == Meaning(table, i)
  }

  /** New objects for different slots. */
  twostate predicate AllNew(new c: seq<ConstantObject?>)
    reads Entries(c)
  {
    && (forall i :: 0 <= i < |c| && c[i] != null ==> fresh(c[i]) && !c[i].shared && c[i].index == 0)
    && (forall i, j :: 0 <= i < j < |c| && c[i] != null ==> c[i] != c[j])
  }

  /** `usable` is the number of slots before the first entry that cannot be resolved. */
  method MakeConstants(table: seq<Raw>) returns (c: seq<ConstantObject?>, usable: nat)
    ensures Shows(c, table) && usable == |Resolved(table, |table|)|
    ensures AllNew(c)
  {
    c, usable := [], 0;
    for i := 0 to |table|
      invariant |c| == i && usable == |Resolved(table, i)|
      invariant forall k :: 0 <= k < i ==> Image(c)[k] == Meaning(table, k)
      invariant AllNew(c)
    {
      match Resolve(table, i) {
        case Some(Entry(v)) =>
          var o := new ConstantObject(v, []);
          c := c + [o];
        case _ =>
          c := c + [null];
      }
      if usable == i && Resolve(table, i).Some? {
        usable := usable + 1;
      }
    }
  }

  /** The slots of the components of the entry at slot `i`, in the order in which they are added to a pool. */
  function PartSlots(table: seq<Raw>, i: nat): (r: seq<int>)
    requires i < |table|
  {
    match table[i]
    case OneIndex(_, k) => [k]
    case TwoIndices(tag, k, l) => if tag == CONSTANT_NAMEANDTYPE then [k, l] else [l, k]
    case _ => []
  }

  /** `parts` are the entries at the given slots. */
  ghost predicate Connected(c: seq<ConstantObject?>, slots: seq<int>, parts: seq<ConstantObject>) {
    |parts| == |slots| && forall j :: 0 <= j < |slots| ==> 0 <= slots[j] < |c| && c[slots[j]] == parts[j]
  }

  /** The components of an entry with a meaning are entries with the meanings they should have. */
  lemma ResolvedParts(table: seq<Raw>, i: nat)
    requires Simple(table) && i < |table| && Meaning(table, i).Entry?
    ensures |PartSlots(table, i)| == |Parts(Meaning(table, i).value)| <= 2
    ensures forall j :: 0 <= j < |PartSlots(table, i)| ==>
              0 <= PartSlots(table, i)[j] < |table| &&
              Meaning(table, PartSlots(table, i)[j]) == Entry(Parts(Meaning(table, i).value)[j])
  {
  }

  lemma ConnectedOk(table: seq<Raw>, c: seq<ConstantObject?>, g: Graph, k: nat)
    requires Simple(table) && Shows(c, table) && k < |c| && c[k] != null
    requires g.Keys == Entries(c) && Connected(c, PartSlots(table, k), g[c[k]])
    ensures NodeOk(g, c[k])
  {
    assert Image(c)[k] == Meaning(table, k);
    ResolvedParts(table, k);
    hide Meaning, PartSlots, Parts;
    forall j | 0 <= j < |g[c[k]]| ensures g[c[k]][j] in g && g[c[k]][j].value == Parts(c[k].value)[j] {
      var slot := PartSlots(table, k)[j];
      assert Image(c)[slot] == Meaning(table, slot);
    }
  }

  method EntriesAt(c: seq<ConstantObject?>, slots: seq<int>) returns (parts: seq<ConstantObject>)
    requires |slots| <= 2 && forall j :: 0 <= j < |slots| ==> 0 <= slots[j] < |c| && c[slots[j]] != null
    ensures Connected(c, slots, parts)
  {
    parts := [];
    if |slots| > 0 {
      parts := parts + [c[slots[0]]];
    }
    if |slots| > 1 {
      parts := parts + [c[slots[1]]];
    }
  }

  /** Points every entry at its components. */
  method Connect(table: seq<Raw>, c: seq<ConstantObject?>) returns (ghost g: Graph)
    requires Simple(table) && Shows(c, table)
    requires forall i, j :: 0 <= i < j < |c| && c[i] != null ==> c[i] != c[j]
    modifies Entries(c)`parts
    ensures Closed(g) && Drawn(g) && g.Keys == Entries(c)
  {
    hide Meaning, PartSlots, Parts, Connected, Simple;
    for i := 0 to |c|
      invariant forall k :: 0 <= k < i && c[k] != null ==> Connected(c, PartSlots(table, k), c[k].parts)
    {
      if c[i] != null {
        assert Image(c)[i] == Meaning(table, i);
        ResolvedParts(table, i);
        var slots := PartSlots(table, i);
        forall j | 0 <= j < |slots| ensures c[slots[j]] != null {
          assert Image(c)[slots[j]] == Meaning(table, slots[j]);
        }
        var parts := EntriesAt(c, slots);
        c[i].parts := parts;
      }
    }
    g := map o <- Entries(c) :: o.parts;
    forall o <- g ensures NodeOk(g, o) {
      var k :| 0 <= k < |c| && c[k] == o;
      ConnectedOk(table, c, g, k);
    }
  }

  /** Makes an object for every entry that can be resolved, and connects it to its components. */
  method ResolveConstants(table: seq<Raw>) returns (c: seq<ConstantObject?>, usable: nat, ghost g: Graph)
    requires Simple(table)
    ensures |c| == |table| && usable == |Resolved(table, |table|)| && Image(c[..usable]) == Resolved(table, |table|)
    ensures forall i :: 0 <= i < |c| && c[i] != null ==> c[i] in g
    ensures Closed(g) && Drawn(g) && forall o <- g :: fresh(o) && !o.shared && o.index == 0
  {
    c, usable := MakeConstants(table);
    forall i | 0 <= i < usable ensures Image(c[..usable])[i] == Resolved(table, |table|)[i] {
      assert Image(c)[i] == Meaning(table, i);
    }
    g := Connect(table, c);
  }

  /** A value that a locked pool refuses would have made the pool larger. */
  lemma RefusedAddsMore(m: State, c: seq<ConstantObject?>, i: nat)
    requires Ok(m) && i < |c| && c[i] != null && c[i].value !in m.h
    ensures InternTable(Image(m.t), Image(c), i) != Image(m.t)
  {
    OkIsFine(m);
    AbsentIsNotInterned(m, c[i].value);
    AddsNothingExactly(Image(m.t), Image(c), i);
    assert EntriesFrom(Image(c), i)[0] == c[i].value;
  }

  ghost function Learned(m: State, g: Graph): State {
    m.(marks := m.marks + map c <- g :: Mark(false, false, 0, g[c]))
  }

  lemma LearnedOk(m: State, g: Graph)
    requires Ok(m) && Closed(g) && g.Keys !! m.marks.Keys
    ensures Ok(Learned(m, g)) && Grown(m, Learned(m, g), -1, -1, null)
  {
    var m' := Learned(m, g);
    forall d <- m'.marks ensures MarkOk(m', d) {
      if d in g {
        assert NodeOk(g, d);
      } else {
        assert MarkOk(m, d);
      }
    }
    forall i | 0 <= i < |m'.t| ensures MemberAt(m', i) {
      assert MemberAt(m, i);
    }
    forall v <- m'.h ensures HashOk(m', v) {
      assert HashOk(m, v);
    }
  }

  /** In a pool, the index of a component is the first slot that holds its value. */
  lemma PartIndices(m: State, c: ConstantObject)
    requires Ok(m) && c in m.marks && m.marks[c].mine
    ensures |m.marks[c].parts| == |Parts(c.value)|
    ensures forall k :: 0 <= k < |m.marks[c].parts| ==>
              m.marks[c].parts[k] in m.marks && m.marks[m.marks[c].parts[k]].index == IndexOf(Image(m.t), Parts(c.value)[k])
  {
    assert MarkOk(m, c);
    forall k | 0 <= k < |m.marks[c].parts|
      ensures m.marks[c].parts[k] in m.marks && m.marks[m.marks[c].parts[k]].index == IndexOf(Image(m.t), Parts(c.value)[k])
    {
      var p := m.marks[c].parts[k];
      assert PartOk(m, c, k) && MarkOk(m, p);
      MemberIsInterned(m, p);
      assert MemberAt(m, IndexOf(Image(m.t), p.value));
    }
  }

  // ------------------------------------------------- compaction, on values

  /** The components of members in use are in use. */
  ghost predicate UseIsClosed(m: State, keep: set<ConstantObject>) {
    forall c <- keep :: c in m.marks && forall p <- m.marks[c].parts :: p in keep
  }

  /** The state after a smash that keeps the members in `keep`. */
  ghost function Smashed(m: State, keep: set<ConstantObject>): State
    requires Ok(m) && keep <= Members(m)
  {
    State(Compact(m.t, keep, |m.t|),
          map v <- m.h | m.h[v] in keep :: m.h[v],
          map c <- keep :: (assert MarkOk(m, c); m.marks[c].(index := Position(m.t, keep, m.marks[c].index))))
  }

  lemma SmashedMarks(m: State, keep: set<ConstantObject>, pos: seq<nat>)
    requires Ok(m) && keep <= Members(m)
    requires |pos| == |m.t| + 1 && forall i :: 1 <= i <= |m.t| ==> pos[i] == Position(m.t, keep, i)
    ensures forall c <- keep ::
              && m.marks[c].shared && 1 <= m.marks[c].index < |m.t| && m.t[m.marks[c].index] == c
              && 0 < pos[m.marks[c].index] <= m.marks[c].index
              && Smashed(m, keep).marks[c] == m.marks[c].(index := pos[m.marks[c].index])
  {
    forall c <- keep
      ensures m.marks[c].shared && 1 <= m.marks[c].index < |m.t| && m.t[m.marks[c].index] == c
      ensures 0 < pos[m.marks[c].index] <= m.marks[c].index
    {
      assert MarkOk(m, c);
      NeverRaised(m.t, keep, m.marks[c].index);
    }
  }

  lemma SmashedPart(m: State, keep: set<ConstantObject>, c: ConstantObject, p: ConstantObject)
    requires Ok(m) && keep <= Members(m) && c in keep && p in keep && m.marks[p].index < m.marks[c].index
    ensures Smashed(m, keep).marks[p].index < Smashed(m, keep).marks[c].index
  {
    assert MarkOk(m, p) && MarkOk(m, c);
    OrderKept(m.t, keep, m.marks[p].index, m.marks[c].index);
  }

  lemma SmashedMark(m: State, keep: set<ConstantObject>, c: ConstantObject)
    requires Ok(m) && keep <= Members(m) && UseIsClosed(m, keep) && c in keep
    ensures MarkOk(Smashed(m, keep), c)
  {
    var k, m' := m.marks[c], Smashed(m, keep);
    assert MarkOk(m, c);
    CompactPlaces(m.t, keep, k.index, |m.t|);
    forall j | 0 <= j < |k.parts| ensures PartOk(m', c, j) {
      assert PartOk(m, c, j);
      SmashedPart(m, keep, c, k.parts[j]);
    }
  }

  /** Every entry of a compacted table was in the old table, and went to its position. */
  lemma {:induction false} ComesFrom(tab: seq<ConstantObject?>, keep: set<ConstantObject>, n: nat, i: nat) returns (k: nat)
    requires 1 <= n <= |tab| && i < |Compact(tab, keep, n)| && Compact(tab, keep, n)[i] != null
    ensures 1 <= k < n && tab[k] == Compact(tab, keep, n)[i] && tab[k] in keep && Position(tab, keep, k) == i
    decreases n
  {
    if n > 1 {
      CompactStep(tab, keep, n);
      hide Compact, Position;
    }
    if i < |Compact(tab, keep, n - 1)| {
      k := ComesFrom(tab, keep, n - 1, i);
    } else {
      k := n - 1;
    }
  }

  /** Compaction keeps a pool whose use is closed a pool. */
  lemma SmashedOk(m: State, keep: set<ConstantObject>)
    requires Ok(m) && keep <= Members(m) && UseIsClosed(m, keep)
    ensures Ok(Smashed(m, keep))
  {
    var m' := Smashed(m, keep);
    CompactIsTable(m.t, keep, |m.t|);
    forall i | 0 <= i < |m'.t| ensures MemberAt(m', i) {
      if m'.t[i] != null {
        var k := ComesFrom(m.t, keep, |m.t|, i);
        assert MemberAt(m, k);
      }
    }
    forall c <- m'.marks ensures MarkOk(m', c) {
      SmashedMark(m, keep, c);
    }
    forall v <- m'.h ensures HashOk(m', v) {
      assert HashOk(m, v);
    }
  }

  /** And no other: what a member in use lacks after the smash was not in use. */
  lemma SmashedOkExactly(m: State, keep: set<ConstantObject>)
    requires Ok(m) && keep <= Members(m)
    ensures Ok(Smashed(m, keep)) <==> UseIsClosed(m, keep)
  {
    if UseIsClosed(m, keep) {
      SmashedOk(m, keep);
    } else if Ok(Smashed(m, keep)) {
      forall c <- keep ensures forall p <- m.marks[c].parts :: p in keep {
        assert MarkOk(m, c) && MarkOk(Smashed(m, keep), c);
      }
      assert false;
    }
  }

  /** The members with their components. */
  ghost function MemberGraph(m: State): (g: Graph)
    requires Ok(m)
    ensures g.Keys == Members(m) && Closed(g)
  {
    var g: Graph := map c <- Members(m) :: m.marks[c].parts;
    assert Closed(g) by {
      forall c <- g ensures NodeOk(g, c) {
        assert MarkOk(m, c);
      }
    }
    g
  }

  /** The members met when the given members and their components, all the way down, are visited. */
  ghost function Needed(m: State, users: seq<ConstantObject>): set<ConstantObject>
    requires Ok(m) && forall c <- users :: c in Members(m)
  {
    set c <- Members(m) | UsesAll(MemberGraph(m), users, c) > 0
  }

  /** Counting the uses of some members from a cleared pool leaves in use those that the users need, and use is closed. */
  lemma CountingClosesUse(m: State, users: seq<ConstantObject>)
    requires Ok(m) && forall c <- users :: c in Members(m)
    ensures UseIsClosed(m, Needed(m, users)) && forall c <- users :: c in Needed(m, users)
  {
    var g := MemberGraph(m);
    forall c <- Members(m) ensures forall p <- m.marks[c].parts :: p in Members(m) && UsesAll(g, users, p) >= UsesAll(g, users, c) {
      assert NodeOk(g, c);
      forall k | 0 <= k < |g[c]| ensures g[c][k] in g && UsesAll(g, users, g[c][k]) >= UsesAll(g, users, c) {
        ComponentUsesAll(g, users, c, k);
      }
    }
    forall c <- users ensures c in g && UsesAll(g, users, c) > 0 {
      ListedIsUsed(g, users, c);
    }
  }

  /** A compaction that loses no slot changes nothing. */
  lemma {:induction false} NothingDropped(tab: seq<ConstantObject?>, keep: set<ConstantObject>, n: nat)
    requires TableOk(tab) && 1 <= n <= |tab| && Position(tab, keep, n) == n + (if AtEntry(tab, n) then 0 else 1)
    ensures Compact(tab, keep, n) == if AtEntry(tab, n) then tab[..n] else tab[..n + 1]
  {
    if n > 1 {
      assert SlotOk(tab, n - 1) && (n < |tab| ==> SlotOk(tab, n));
      hide TableOk, SlotOk, Compact, Position;
      var o := tab[n - 1];
      AfterEntry(tab, n);
      CompactStep(tab, keep, n);
      NeverRaised(tab, keep, n - 1);
      NothingDropped(tab, keep, n - 1);
      if o != null {
        assert tab[..n] == tab[..n - 1] + [o];
        assert o.NSlots() == 2 ==> tab[..n + 1] == tab[..n - 1] + [o, null];
      }
    }
  }

  /** Where the entry for `v` stands. */
  ghost function HashedAt(m: State, v: Value): (i: nat)
    requires Ok(m) && v in m.h
    ensures 1 <= i < |m.t| && m.t[i] == m.h[v] && m.h[v].value == v && m.h[v] in Members(m) && m.marks[m.h[v]].index == i
  {
    assert HashOk(m, v) && MarkOk(m, m.h[v]);
    m.marks[m.h[v]].index
  }

  lemma OnlyOneAt(m: State, i: nat)
    requires Ok(m) && 1 <= i < |m.t| && m.t[i] != null
    ensures m.t[i].value in m.h && m.h[m.t[i].value] == m.t[i] && HashedAt(m, m.t[i].value) == i
    ensures forall v <- m.h :: i <= HashedAt(m, v) < i + m.t[i].NSlots() ==> v == m.t[i].value
  {
    assert MemberAt(m, i) && SlotOk(m.t, i);
  }

  // ------------------------------------------------------------ the pool

  class ConstantPool {
    var h: map<Value, ConstantObject>
    var t: seq<ConstantObject?>
    var n: int
    var locked: bool
    /** What is known of the entries that may be added, and of the members. */
    ghost var marks: map<ConstantObject, Mark>

    ghost function Now(): State
      reads this`t, this`h, this`marks
    {
      State(t, h, marks)
    }

    /** The marks are those that the entries carry. */
    ghost predicate Linked()
      reads this`marks, marks.Keys`shared, marks.Keys`containingPool, marks.Keys`index, marks.Keys`parts
    {
      forall c <- marks ::
        && marks[c].mine == (c.shared && c.containingPool == this)
        && marks[c].shared == c.shared && marks[c].index == c.index && marks[c].parts == c.parts
    }

    ghost predicate Valid()
      reads this, marks.Keys`shared, marks.Keys`containingPool, marks.Keys`index, marks.Keys`parts
    {
      n == |t| && Ok(Now()) && Linked()
    }

    lemma Marked(c: ConstantObject)
      requires Linked() && c in marks
      ensures marks[c].mine == (c.shared && c.containingPool == this) && marks[c].shared == c.shared && marks[c].parts == c.parts
      ensures marks[c].index == c.index
    {
    }

    constructor ()
      ensures Valid() && t == [null] && n == 1 && h == map[] && !locked && marks == map[]
    {
      h := map[];
      t := [null];
      n := 1;
      locked := false;
      marks := map[];
    }

    /** An unshared copy; its components are still those of the original. */
    method Clone(s: ConstantObject) returns (r: ConstantObject)
      requires Valid() && s in marks
      modifies this`marks
      ensures fresh(r) && r.value == s.value && r.parts == s.parts && !r.shared && r.references == 0 && r in marks
      ensures marks.Keys == old(marks.Keys) + {r}
      ensures Valid() && Grown(old(Now()), Now(), -1, -1, null)
    {
      ghost var m := Now();
      r := new ConstantObject(s.value, s.parts);
      r.containingPool := s.containingPool;
      KnownOk(m, r, s);
      marks := marks[r := Mark(false, false, 0, s.parts)];
      assert Now() == Known(m, r, m.marks[s].parts);
    }

    method SetPart(c: ConstantObject, k: nat, p: ConstantObject)
      requires Valid() && c in marks && !c.shared && p in marks
      requires k < |c.parts| && p.value == c.parts[k].value
      modifies this`marks, c`parts
      ensures Valid() && Grown(old(Now()), Now(), -1, Rank(c.value), c) && marks.Keys == old(marks.Keys)
      ensures c.parts == old(c.parts)[k := p] == marks[c].parts && Now() == WithPart(old(Now()), c, k, p)
    {
      ghost var m := Now();
      WithPartOk(m, c, k, p);
      c.parts := c.parts[k := p];
      marks := marks[c := marks[c].(parts := c.parts)];
      assert Now() == WithPart(m, c, k, p);
    }

    method Append(c: ConstantObject)
      modifies this`h, this`t, this`n
      ensures n == old(n) + c.NSlots() && t == old(t) + Room(c) && h == old(h)[c.value := c]
    {
      n := n + c.NSlots();
      h := h[c.value := c];
      t := t + [c];
      if c.NSlots() > 1 {
        t := t + [null];
      }
      assert t == old(t) + Room(c);
    }

    /** Gives `c` the next free index and enters it. */
    method Register(c: ConstantObject)
      requires Valid() && c in marks && !c.shared && c.value !in h && PartsMine(Now(), c)
      modifies this`h, this`t, this`n, this`marks, c`index, c`shared, c`containingPool
      ensures Valid() && Grown(old(Now()), Now(), Rank(c.value), Rank(c.value), c) && marks.Keys == old(marks.Keys)
      ensures marks[c].mine && c.index == old(n)
      ensures Image(t) == Appended(old(Image(t)), c.value)
    {
      ghost var m := Now();
      RegisteredOk(m, c);
      ImageAppended(t, c);
      c.index := n;
      c.shared := true;
      c.containingPool := this;
      marks := marks[c := Mark(true, true, c.index, c.parts)];
      assert Linked();
      Append(c);
      assert Now() == Registered(m, c);
    }

    /**
     Finds the entry equal to `s` or makes one: `s` itself, or a copy if another pool owns it.
     A locked pool yields null for a value it does not hold.
     */
    method Add(s: ConstantObject) returns (r: ConstantObject?)
      requires Valid() && s in marks
      modifies this`h, this`t, this`n, this`marks
      modifies marks.Keys`parts, marks.Keys`index, marks.Keys`shared, marks.Keys`containingPool
      ensures old(marks.Keys) <= marks.Keys && fresh(marks.Keys - old(marks.Keys))
      ensures Valid() && Grown(old(Now()), Now(), Rank(s.value), Rank(s.value), s)
      ensures r == null <==> locked && s.value !in old(h)
      ensures locked ==> t == old(t)
      ensures r != null ==> r in marks && r.value == s.value && marks[r].mine
      ensures r != null ==> r.shared && r.containingPool == this && 0 < r.index < |t| && t[r.index] == r
      ensures s.value in old(h) ==> r == old(h)[s.value]
      ensures r != null && s.value !in old(h) ==> if old(s.shared) then fresh(r) else r == s
      ensures r != null ==> Image(t) == Intern(old(Image(t)), s.value)
      decreases Rank(s.value), 1, 0
    {
      hide Ok, Linked, Grown;
      ghost var m := Now();
      Marked(s);
      NotGrown(m, Rank(s.value), Rank(s.value), s);
      if s.shared && s.containingPool == this {
        MemberIsInterned(m, s);
        return s;
      }
      if s.value in h {
        HashedIsInterned(m, s.value);
        Marked(h[s.value]);
        return h[s.value];
      }
      AbsentIsNotInterned(m, s.value);
      if locked {
        return null;
      }
      var c: ConstantObject := s;
      if s.shared {
        c := Clone(s);
      }
      ghost var m1 := Now();
      Marked(c);
      Enter(c);
      GrownTwice(m, m1, Now(), -1, -1, null, Rank(s.value), Rank(s.value), c, Rank(s.value), Rank(s.value), s);
      Marked(c);
      MemberIsInterned(Now(), c);
      r := c;
    }

    /** As `Add`, but `s` itself stays as it is and is returned only if it was a member before. */
    method Dup(s: ConstantObject) returns (r: ConstantObject?)
      requires Valid() && s in marks
      modifies this`h, this`t, this`n, this`marks
      modifies marks.Keys`parts, marks.Keys`index, marks.Keys`shared, marks.Keys`containingPool
      ensures old(marks.Keys) <= marks.Keys && fresh(marks.Keys - old(marks.Keys))
      ensures Valid() && Grown(old(Now()), Now(), Rank(s.value), Rank(s.value), null)
      ensures marks[s] == old(marks[s]) && (r == s ==> old(marks[s].mine))
      ensures r == null <==> locked && s.value !in old(h)
      ensures locked ==> t == old(t)
      ensures r != null ==> r in marks && r.value == s.value && marks[r].mine
      ensures r != null ==> r.shared && r.containingPool == this && 0 < r.index < |t| && t[r.index] == r
      ensures s.value in old(h) ==> r == old(h)[s.value]
      ensures r != null && s.value !in old(h) ==> fresh(r)
      ensures r != null ==> Image(t) == Intern(old(Image(t)), s.value)
      decreases Rank(s.value), 2, 0
    {
      hide Ok, Linked, Grown;
      ghost var m := Now();
      Marked(s);
      NotGrown(m, Rank(s.value), Rank(s.value), null);
      if s.shared && s.containingPool == this {
        MemberIsInterned(m, s);
        return s;
      }
      var c := Clone(s);
      ghost var m1 := Now();
      r := Add(c);
      GrownTwice(m, m1, Now(), -1, -1, null, Rank(s.value), Rank(s.value), c, Rank(s.value), Rank(s.value), null);
      StaysSettled(m, Now(), Rank(s.value), Rank(s.value), null, s);
    }

    /** Makes an unshared entry a member, after its components. */
    method Enter(c: ConstantObject)
      requires Valid() && c in marks && !c.shared && !locked && c.value !in h
      modifies this`h, this`t, this`n, this`marks
      modifies marks.Keys`parts, marks.Keys`index, marks.Keys`shared, marks.Keys`containingPool
      ensures old(marks.Keys) <= marks.Keys && fresh(marks.Keys - old(marks.Keys))
      ensures Valid() && Grown(old(Now()), Now(), Rank(c.value), Rank(c.value), c)
      ensures c in marks && marks[c].mine
      ensures Image(t) == Appended(InternParts(old(Image(t)), c.value), c.value)
      decreases Rank(c.value), 0, 4
    {
      hide Ok;
      ghost var m := Now();
      Externalize(c);
      ghost var m1 := Now();
      Register(c);
      GrownTwice(m, m1, Now(), Rank(c.value) - 1, Rank(c.value), c, Rank(c.value), Rank(c.value), c, Rank(c.value), Rank(c.value), c);
    }

    /** Replaces the second component after the first. */
    method ReplaceSecond(ghost m: State, c: ConstantObject)
      requires Valid() && c in marks && !c.shared && !locked && |c.parts| == 2
      requires Grown(m, Now(), Rank(c.value) - 1, Rank(c.value), c) && c.parts[0] in marks && marks[c.parts[0]].mine
      modifies this`h, this`t, this`n, this`marks
      modifies marks.Keys`parts, marks.Keys`index, marks.Keys`shared, marks.Keys`containingPool
      ensures old(marks.Keys) <= marks.Keys && fresh(marks.Keys - old(marks.Keys))
      ensures Valid() && Grown(m, Now(), Rank(c.value) - 1, Rank(c.value), c)
      ensures c in marks && !c.shared && PartsMine(Now(), c)
      ensures |Parts(c.value)| == 2 && Image(t) == Intern(old(Image(t)), Parts(c.value)[1])
      decreases Rank(c.value), 0, 2
    {
      ghost var m1, first := Now(), c.parts[0];
      ReplacePart(c, 1);
      assert first in marks && marks[first].mine;
      hide Ok, Linked, Intern, Grown;
      GrownTwice(m, m1, Now(), Rank(c.value) - 1, Rank(c.value), c, Rank(c.value) - 1, Rank(c.value), c, Rank(c.value) - 1, Rank(c.value), c);
    }

    /** Replaces the components of `c` by the pool's own. */
    method Externalize(c: ConstantObject)
      requires Valid() && c in marks && !c.shared && !locked
      modifies this`h, this`t, this`n, this`marks
      modifies marks.Keys`parts, marks.Keys`index, marks.Keys`shared, marks.Keys`containingPool
      ensures old(marks.Keys) <= marks.Keys && fresh(marks.Keys - old(marks.Keys))
      ensures Valid() && Grown(old(Now()), Now(), Rank(c.value) - 1, Rank(c.value), c)
      ensures c in marks && !c.shared && PartsMine(Now(), c)
      ensures Image(t) == InternParts(old(Image(t)), c.value)
      decreases Rank(c.value), 0, 3
    {
      ghost var m := Now();
      assert |c.parts| == |Parts(c.value)| && marks[c].parts == c.parts by {
        assert MarkOk(m, c);
      }
      hide Ok, Linked, Valid, Intern, Parts, Rank;
      if |c.parts| > 0 {
        ReplacePart(c, 0);
      }
      if |c.parts| > 1 {
        ReplaceSecond(m, c);
      }
    }

    /** The pool's own entry for a component; the class of a member reference is never itself made a member. */
    method OwnPart(c: ConstantObject, k: nat) returns (p: ConstantObject)
      requires Valid() && c in marks && !c.shared && !locked && k < |c.parts|
      modifies this`h, this`t, this`n, this`marks
      modifies marks.Keys`parts, marks.Keys`index, marks.Keys`shared, marks.Keys`containingPool
      ensures old(marks.Keys) <= marks.Keys && fresh(marks.Keys - old(marks.Keys))
      ensures Valid() && Grown(old(Now()), Now(), Rank(c.value) - 1, Rank(c.value) - 1, old(c.parts[k]))
      ensures c in marks && marks[c] == old(marks[c]) && c.parts == old(c.parts) && !c.shared
      ensures p in marks && p.value == c.parts[k].value && marks[p].mine
      ensures var part := old(c.parts[k]);
              if part.value in old(h) then p == old(h)[part.value]
              else if old(part.shared) || (c.value.Ref? && k == 1) then fresh(p)
              else p == part
      ensures k < |Parts(c.value)| && Image(t) == Intern(old(Image(t)), Parts(c.value)[k])
      decreases Rank(c.value), 0, 0
    {
      ghost var m := Now();
      Marked(c);
      assert c.parts[k] in marks && k < |Parts(c.value)| && c.parts[k].value == Parts(c.value)[k] by {
        assert MarkOk(m, c) && PartOk(m, c, k);
      }
      hide Ok, Linked, Grown, Intern;
      ghost var part := c.parts[k];
      var q;
      if c.value.Ref? && k == 1 {
        q := Dup(c.parts[k]);
      } else {
        q := Add(c.parts[k]);
      }
      StaysSettled(m, Now(), Rank(part.value), Rank(part.value), if c.value.Ref? && k == 1 then null else part, c);
      Marked(c);
      p := q;
    }

    /** Replaces one component by the pool's own entry. */
    method ReplacePart(c: ConstantObject, k: nat)
      requires Valid() && c in marks && !c.shared && !locked && k < |c.parts|
      modifies this`h, this`t, this`n, this`marks
      modifies marks.Keys`parts, marks.Keys`index, marks.Keys`shared, marks.Keys`containingPool
      ensures old(marks.Keys) <= marks.Keys && fresh(marks.Keys - old(marks.Keys))
      ensures Valid() && Grown(old(Now()), Now(), Rank(c.value) - 1, Rank(c.value), c)
      ensures c in marks && !c.shared && |c.parts| == old(|c.parts|)
      ensures forall j :: 0 <= j < |c.parts| && j != k ==> c.parts[j] == old(c.parts[j])
      ensures marks[c].parts == c.parts && c.parts[k] in marks && marks[c.parts[k]].mine
      ensures var part := old(c.parts[k]);
              if part.value in old(h) then c.parts[k] == old(h)[part.value]
              else if old(part.shared) || (c.value.Ref? && k == 1) then fresh(c.parts[k])
              else c.parts[k] == part
      ensures k < |Parts(c.value)| && Image(t) == Intern(old(Image(t)), Parts(c.value)[k])
      decreases Rank(c.value), 0, 1
    {
      hide Ok, Linked, Grown, Intern;
      ghost var m := Now();
      ghost var part := c.parts[k];
      var p := OwnPart(c, k);
      ghost var m1 := Now();
      SetPart(c, k, p);
      GrownTwice(m, m1, Now(), Rank(c.value) - 1, Rank(c.value) - 1, part, -1, Rank(c.value), c, Rank(c.value) - 1, Rank(c.value), c);
    }

    // ------------------------------------------------- reference counts, compaction

    /** Sets every member's count to zero. */
    method ClearAllReferences()
      requires Valid()
      modifies Members(Now())`references
      ensures forall c <- Members(Now()) :: c.references == 0
    {
      var i := 1;
      WalkStep(t, {}, 0);
      while i < n
        invariant AtEntry(t, i)
        invariant forall k :: 1 <= k < i && t[k] != null ==> t[k].references == 0
        decreases n - i
      {
        var c := t[i];
        WalkStep(t, {}, i);
        MemberAtSlot(Now(), i);
        c.references := 0;
        i := i + c.NSlots();
      }
      forall c <- Members(Now()) ensures c.references == 0 {
        assert MarkOk(Now(), c);
      }
    }

    /** The members whose count is not zero. */
    ghost function InUse(): set<ConstantObject>
      reads this`t, this`h, this`marks, Members(Now())`references
    {
      set c <- Members(Now()) | c.references != 0
    }

    ghost method Remark(m: State, keep: set<ConstantObject>, pos: seq<nat>)
      requires Ok(m) && keep <= Members(m) && marks == m.marks
      requires |pos| == |m.t| + 1 && forall i :: 1 <= i <= |m.t| ==> pos[i] == Position(m.t, keep, i)
      requires forall k :: 1 <= k < |m.t| && m.t[k] != null && m.t[k] in keep ==> m.t[k].index == pos[k]
      requires forall c <- keep :: c.shared && c.containingPool == this && c.parts == m.marks[c].parts
      modifies this`marks
      ensures marks == Smashed(m, keep).marks && Linked()
    {
      SmashedMarks(m, keep, pos);
      marks := Smashed(m, keep).marks;
    }

    method NumberMember(o: ConstantObject, nNew: nat) returns (next: nat)
      modifies this`h, o`index
      ensures o.references == 0 ==> o.index == -1 && h == old(h) - {o.value} && next == nNew
      ensures o.references != 0 ==> o.index == nNew && h == old(h) && next == nNew + o.NSlots()
    {
      next := nNew;
      if o.references == 0 {
        o.index := -1;
        h := h - {o.value};
      } else {
        o.index := next;
        next := next + o.NSlots();
      }
    }

    /** First pass: gives every member in use its new index and drops the others from the hash table. */
    method NumberMembers(ghost keep: set<ConstantObject>, ghost goal: seq<ConstantObject?>, ghost pos: seq<nat>) returns (nNew: nat)
      requires Valid() && keep == InUse() && LayoutOk(t, keep, goal, pos)
      modifies this`h, Members(Now())`index
      ensures nNew == |goal|
      ensures forall k :: 1 <= k < |t| && t[k] != null ==> t[k].index == (if t[k] in keep then pos[k] else -1)
      ensures forall v :: v in h <==> v in old(h) && old(h)[v] in keep
      ensures forall v <- h :: h[v] == old(h)[v]
    {
      hide Ok, Linked, HashedAt;
      ghost var m, members := Now(), Members(Now());
      forall k | 0 <= k < |t| && t[k] != null ensures t[k] in members && m.marks[t[k]].index == k {
        MemberAtSlot(m, k);
      }
      nNew := 1;
      var i := 1;
      while i < n
        invariant AtEntry(t, i) && nNew == pos[i]
        invariant forall c <- members :: c in keep <==> c.references != 0
        invariant forall k :: 1 <= k < i && t[k] != null ==> t[k].index == (if t[k] in keep then pos[k] else -1)
        invariant forall v :: v in h <==> v in m.h && (m.h[v] in keep || HashedAt(m, v) >= i)
        invariant forall v <- h :: h[v] == m.h[v]
        decreases n - i
      {
        assert StepAt(t, keep, goal, pos, i);
        OnlyOneAt(m, i);
        nNew := NumberMember(t[i], nNew);
        i := i + t[i].NSlots();
      }
    }

    /** Second pass: a new table of the members in use. */
    method RebuildTable(nNew: nat, ghost keep: set<ConstantObject>, ghost goal: seq<ConstantObject?>, ghost pos: seq<nat>)
      requires n == |t| && LayoutOk(t, keep, goal, pos) && nNew == |goal|
      requires forall k :: 0 <= k < |t| && t[k] != null ==> (t[k] in keep <==> t[k].references != 0)
      modifies this`t, this`n
      ensures t == goal && n == nNew
    {
      var newConstants: seq<ConstantObject?> := [null];
      var i := 1;
      while i < n
        invariant AtEntry(t, i)
        invariant |newConstants| == pos[i] <= |goal|
        invariant forall k :: 0 <= k < |newConstants| ==> newConstants[k] == goal[k]
        decreases n - i
      {
        var o := t[i];
        assert StepAt(t, keep, goal, pos, i);
        if o.references != 0 {
          newConstants := newConstants + [o];
          if o.NSlots() > 1 {
            newConstants := newConstants + [null];
          }
        }
        i := i + o.NSlots();
      }
      t := newConstants;
      n := nNew;
    }

    method CloseGaps(ghost keep: set<ConstantObject>, ghost pos: seq<nat>)
      requires Valid() && keep == InUse() && LayoutOk(t, keep, Compact(t, keep, |t|), pos)
      modifies this`h, this`t, this`n, Members(Now())`index
      ensures t == Compact(old(t), keep, |old(t)|) && n == |t|
      ensures forall k :: 1 <= k < |old(t)| && old(t)[k] != null ==> old(t)[k].index == (if old(t)[k] in keep then pos[k] else -1)
      ensures forall v :: v in h <==> v in old(h) && old(h)[v] in keep
      ensures forall v <- h :: h[v] == old(h)[v]
    {
      ghost var goal := Compact(t, keep, |t|);
      assert forall k :: 0 <= k < |t| && t[k] != null ==> t[k] in Members(Now()) by {
        forall k | 0 <= k < |t| && t[k] != null ensures t[k] in Members(Now()) {
          MemberAtSlot(Now(), k);
        }
      }
      var nNew := NumberMembers(keep, goal, pos);
      if nNew == n {
        NothingDropped(t, keep, |t|);
      } else {
        RebuildTable(nNew, keep, goal, pos);
      }
    }

    /**
     Drops the members whose count is zero and closes the gaps. What is left is a pool again exactly
     if the components of members in use are in use.
     */
    method SmashConstantPool()
      requires Valid()
      modifies this`h, this`t, this`n, this`marks, Members(Now())`index
      ensures Now() == Smashed(old(Now()), old(InUse())) && n == |t| && Linked()
      ensures Valid() <==> UseIsClosed(old(Now()), old(InUse()))
    {
      ghost var m, keep := Now(), InUse();
      ghost var pos := Layout(t, keep);
      CloseGaps(keep, pos);
      assert h == Smashed(m, keep).h;
      Remark(m, keep, pos);
      SmashedOkExactly(m, keep);
    }

    /** Drops all members but those that the given ones need: clears the counts, counts the uses, smashes. */
    method Reduce(users: seq<ConstantObject>)
      requires Valid() && forall c <- users :: c in Members(Now())
      modifies this`h, this`t, this`n, this`marks, Members(Now())`index, Members(Now())`references
      ensures Valid() && Members(Now()) == old(Needed(Now(), users))
      ensures Now() == Smashed(old(Now()), old(Needed(Now(), users)))
      ensures forall c <- users :: c in Members(Now())
    {
      ghost var m := Now();
      ghost var g := MemberGraph(m);
      CountingClosesUse(m, users);
      ClearAllReferences();
      CountList(users, g);
      assert InUse() == Needed(m, users);
      SmashConstantPool();
      assert Members(Now()) == Needed(m, users);
    }

    // ------------------------------------------------- class-file form

    /** Writes the number of slots and then every entry, in order. */
    method Write() returns (items: seq<Item>)
      requires Valid()
      ensures items == WritePool(Image(t))
    {
      hide WriteEntry, MarkOk, HashOk, MemberAt, SlotOk;
      ghost var image, m := Image(t), Now();
      items := [U2(n % 0x1_0000)];
      var i := 1;
      WalkStep(t, {}, 0);
      while i < n
        invariant AtEntry(t, i)
        invariant items + WriteFrom(image, i) == WritePool(image)
        decreases n - i
      {
        var ob := t[i];
        WalkStep(t, {}, i);
        MemberAtSlot(m, i);
        PartIndices(m, ob);
        var entry := WriteConstant(ob, image);
        WriteStep(image, i);
        items := items + entry;
        i := i + ob.NSlots();
      }
    }

    /** New, unshared entries become known. */
    ghost method Learn(g: Graph)
      requires Valid() && Closed(g) && Drawn(g) && g.Keys !! marks.Keys
      requires forall c <- g :: !c.shared && c.index == 0
      modifies this`marks
      ensures Valid() && Now() == Learned(old(Now()), g) && Grown(old(Now()), Now(), -1, -1, null)
    {
      LearnedOk(Now(), g);
      marks := Learned(Now(), g).marks;
    }

    /** Adds entries in order; a locked pool stops at the first that it does not have. */
    method AddAll(c: seq<ConstantObject?>) returns (ok: bool)
      requires Valid() && forall i :: 0 <= i < |c| && c[i] != null ==> c[i] in marks
      modifies this`h, this`t, this`n, this`marks
      modifies marks.Keys`parts, marks.Keys`index, marks.Keys`shared, marks.Keys`containingPool
      ensures Valid() && Grown(old(Now()), Now(), 2, 3, null)
      ensures ok <==> !locked || InternTable(old(Image(t)), Image(c), 1) == old(Image(t))
      ensures Image(t) == if locked then old(Image(t)) else InternTable(old(Image(t)), Image(c), 1)
    {
      hide Ok, Intern, Linked, Grown, Image;
      ghost var m := Now();
      NotGrown(m, 2, 3, null);
      var i := 1;
      while i < |c|
        invariant i >= 1 && old(marks.Keys) <= marks.Keys && fresh(marks.Keys - old(marks.Keys))
        invariant Valid() && Grown(m, Now(), 2, 3, null)
        invariant locked ==> t == m.t
        invariant InternTable(Image(t), Image(c), i) == InternTable(Image(m.t), Image(c), 1)
        decreases |c| - i
      {
        if c[i] == null {
          i := i + 1;
        } else {
          ghost var m1 := Now();
          var r := Add(c[i]);
          GrownTwice(m, m1, Now(), 2, 3, null, Rank(c[i].value), Rank(c[i].value), c[i], 2, 3, null);
          if r == null {
            RefusedAddsMore(m1, c, i);
            return false;
          }
          i := i + c[i].NSlots();
        }
      }
      ok := true;
    }

    /**
     Reads a table of constants and adds its entries in order. A malformed stream, or an index to an entry of
     the wrong kind, adds nothing; an entry with a missing component fails after those before it were added.
     A locked pool stays as it was, and accepts only tables whose entries it has.
     */
    method Read(items: seq<Item>) returns (ok: bool)
      requires Valid()
      modifies this`h, this`t, this`n, this`marks
      modifies marks.Keys`parts, marks.Keys`index, marks.Keys`shared, marks.Keys`containingPool
      ensures Valid() && Grown(old(Now()), Now(), 2, 3, null)
      ensures ok <==> ReadTable(items).Some? && (locked ==> InternTable(old(Image(t)), ReadTable(items).value, 1) == old(Image(t)))
      ensures Image(t) == if locked then old(Image(t)) else InternTable(old(Image(t)), Added(items), 1)
    {
      ReadIsAdded(items);
      ghost var m := Now();
      var table := ReadRaw(items);
      if table.None? {
        return false;
      }
      var casts := CheckIndices(table.value, items[0].w);
      if !casts {
        return false;
      }
      var c, usable;
      ghost var g;
      c, usable, g := ResolveConstants(table.value);
      Learn(g);
      ghost var m1 := Now();
      assert Image(c[..usable]) == Added(items);
      ok := AddAll(c[..usable]);
      ok := ok && usable == |c|;
      GrownTwice(m, m1, Now(), -1, -1, null, 2, 3, null, 2, 3, null);
    }
  }
}
