/**
 Constant-pool entries. Java keeps one object per entry; an entry's meaning (`value`)
 never changes once it is resolved, while its component references, reference count,
 index and sharing marks do.
 */
module Constants {

  datatype SingleKind = IntegerKind | FloatKind
  datatype DoubleKind = LongKind | DoubleKind
  datatype RefKind = FieldKind | MethodKind | InterfaceMethodKind

  /** What an entry means, independent of where it or its components are stored. */
  datatype Value =
    | Utf8(text: string)
    | Single(single: SingleKind, word: int)
    | Double(double: DoubleKind, high: int, low: int)
    | Str(text: string)
    | NameAndType(name: string, typ: string)
    | Class(name: string)
    | Ref(member: RefKind, cls: string, name: string, typ: string)

  function Rank(v: Value): (r: nat)
    ensures r <= 2
  {
    match v
    case Utf8(_) => 0
    case Single(_, _) => 0
    case Double(_, _, _) => 0
    case Ref(_, _, _, _) => 2
    case _ => 1
  }

  /** The component entries of a value, in the order in which they are added to a pool. */
  function Parts(v: Value): (ps: seq<Value>)
    ensures |ps| <= 2
    ensures forall i :: 0 <= i < |ps| ==> Rank(ps[i]) < Rank(v)
  {
    match v
    case Str(s) => [Utf8(s)]
    case NameAndType(n, t) => [Utf8(n), Utf8(t)]
    case Class(n) => [Utf8(n)]
    case Ref(_, c, n, t) => [NameAndType(n, t), Class(c)]
    case _ => []
  }

  /** Long and double entries take two slots of a pool, every other kind takes one. */
  function Slots(v: Value): (n: nat)
    ensures n == 1 || n == 2
  {
    if v.Double? then 2 else 1
  }

  /** Entries with their components, as they stand at some moment. */
  type Graph = map<ConstantObject, seq<ConstantObject>>

  /** The components of every entry are entries of the graph, and mean what the entry says they mean. */
  ghost predicate Closed(g: Graph) {
    forall c {:trigger NodeOk(g, c)} :: c in g ==> NodeOk(g, c)
  }

  ghost predicate NodeOk(g: Graph, c: ConstantObject)
    requires c in g
  {
    && |g[c]| == |Parts(c.value)|
    && (|g[c]| > 0 ==> g[c][0] in g && g[c][0].value == Parts(c.value)[0])
    && (|g[c]| > 1 ==> g[c][1] in g && g[c][1].value == Parts(c.value)[1])
  }

  /** The graph shows the component references as they now are. */
  ghost predicate Drawn(g: Graph)
    reads g.Keys`parts
  {
    forall c :: c in g ==> c.parts == g[c]
  }

  /** How often `o` is met when `c` and its components, all the way down, are visited. */
  ghost function Uses(g: Graph, c: ConstantObject, o: ConstantObject): nat
    requires Closed(g) && c in g
    decreases Rank(c.value)
  {
    assert NodeOk(g, c);
    (if c == o then 1 else 0)
    + (if |g[c]| > 0 then Uses(g, g[c][0], o) else 0)
    + (if |g[c]| > 1 then Uses(g, g[c][1], o) else 0)
  }

  class ConstantObject {
    const value: Value
    var parts: seq<ConstantObject>
    var references: int
    var index: int
    var shared: bool
    var containingPool: object?

    constructor (value: Value, parts: seq<ConstantObject>)
      ensures this.value == value && this.parts == parts
      ensures references == 0 && index == 0 && !shared && containingPool == null
    {
      this.value := value;
      this.parts := parts;
      references, index, shared, containingPool := 0, 0, false, null;
    }

    function NSlots(): (n: nat)
      ensures n == 1 || n == 2
    {
      Slots(value)
    }

    /** Counts one use of this entry and, through it, of its components. */
    method IncReference(ghost g: Graph)
      requires Closed(g) && Drawn(g) && this in g
      modifies g.Keys`references
      ensures forall o <- g :: o.references == old(o.references) + Uses(g, this, o)
      decreases Rank(value)
    {
      assert NodeOk(g, this);
      references := references + 1;
      if |parts| > 0 {
        parts[0].IncReference(g);
      }
      if |parts| > 1 {
        parts[1].IncReference(g);
      }
    }
  }

  ghost predicate Within(cs: seq<ConstantObject>, g: Graph) {
    forall i :: 0 <= i < |cs| ==> cs[i] in g
  }

  ghost predicate WithinEach(lists: seq<seq<ConstantObject>>, g: Graph) {
    forall k :: 0 <= k < |lists| ==> Within(lists[k], g)
  }

  ghost predicate TableWithin(table: seq<ConstantObject?>, g: Graph) {
    forall i :: 0 <= i < |table| && table[i] != null ==> table[i] in g
  }

  ghost function UsesAll(g: Graph, cs: seq<ConstantObject>, o: ConstantObject): nat
    requires Closed(g) && Within(cs, g)
  {
    if cs == [] then 0
    else UsesAll(g, cs[..|cs| - 1], o) + Uses(g, cs[|cs| - 1], o)
  }

  /** How often the first `n` lists meet `o`. */
  ghost function UsesEach(g: Graph, lists: seq<seq<ConstantObject>>, n: nat, o: ConstantObject): nat
    requires n <= |lists| && Closed(g) && WithinEach(lists, g)
  {
    if n == 0 then 0 else UsesEach(g, lists, n - 1, o) + UsesAll(g, lists[n - 1], o)
  }

  lemma {:induction false} UsesAllAppend(g: Graph, a: seq<ConstantObject>, b: seq<ConstantObject>, o: ConstantObject)
    requires Closed(g) && Within(a, g) && Within(b, g)
    ensures UsesAll(g, a + b, o) == UsesAll(g, a, o) + UsesAll(g, b, o)
  {
    if b == [] {
      assert a + b == a;
    } else {
      UsesAllAppend(g, a, b[..|b| - 1], o);
      assert (a + b)[..|a + b| - 1] == a + b[..|b| - 1];
    }
  }

  lemma UsesAllThree(g: Graph, a: seq<ConstantObject>, b: seq<ConstantObject>, c: seq<ConstantObject>)
    requires Closed(g) && Within(a, g) && Within(b, g) && Within(c, g)
    ensures forall o <- g :: UsesAll(g, a + b + c, o) == UsesAll(g, a, o) + UsesAll(g, b, o) + UsesAll(g, c, o)
  {
    forall o <- g ensures UsesAll(g, a + b + c, o) == UsesAll(g, a, o) + UsesAll(g, b, o) + UsesAll(g, c, o) {
      UsesAllAppend(g, a, b, o);
      UsesAllAppend(g, a + b, c, o);
    }
  }

  /** An entry is counted at least once if it is listed. */
  lemma {:induction false} ListedIsUsed(g: Graph, cs: seq<ConstantObject>, o: ConstantObject)
    requires Closed(g) && Within(cs, g) && o in cs
    ensures UsesAll(g, cs, o) > 0
  {
    var last := cs[|cs| - 1];
    if last != o {
      assert cs == cs[..|cs| - 1] + [last];
      ListedIsUsed(g, cs[..|cs| - 1], o);
    }
  }

  /** An entry is met from a list exactly if it is met from one of the listed. */
  lemma {:induction false} MetFromOne(g: Graph, cs: seq<ConstantObject>, o: ConstantObject)
    requires Closed(g) && Within(cs, g)
    ensures UsesAll(g, cs, o) > 0 <==> exists c <- g :: c in cs && Uses(g, c, o) > 0
  {
    if cs != [] {
      var rest, last := cs[..|cs| - 1], cs[|cs| - 1];
      MetFromOne(g, rest, o);
      assert cs == rest + [last];
      assert forall c :: c in cs <==> c in rest || c == last;
    }
  }

  lemma {:induction false} MetFromOneList(g: Graph, lists: seq<seq<ConstantObject>>, n: nat, o: ConstantObject)
    requires n <= |lists| && Closed(g) && WithinEach(lists, g)
    ensures UsesEach(g, lists, n, o) > 0 <==> exists k :: 0 <= k < n && UsesAll(g, lists[k], o) > 0
  {
    if n > 0 {
      MetFromOneList(g, lists, n - 1, o);
    }
  }

  lemma {:induction false} EachCounts(g: Graph, lists: seq<seq<ConstantObject>>, n: nat, k: nat, o: ConstantObject)
    requires k < n <= |lists| && Closed(g) && WithinEach(lists, g)
    ensures UsesEach(g, lists, n, o) >= UsesAll(g, lists[k], o)
    decreases n
  {
    var last, kth := lists[n - 1], lists[k];
    assert Within(last, g) && Within(kth, g);
    if k < n - 1 {
      EachCounts(g, lists, n - 1, k, o);
      assert UsesEach(g, lists, n - 1, o) >= UsesAll(g, kth, o);
    } else {
      assert last == kth;
    }
    assert UsesEach(g, lists, n, o) == UsesEach(g, lists, n - 1, o) + UsesAll(g, last, o);
  }

  /** An entry is not met below an entry of lower rank. */
  lemma {:induction false} RankBoundsUses(g: Graph, c: ConstantObject, o: ConstantObject)
    requires Closed(g) && c in g && Rank(c.value) < Rank(o.value)
    ensures Uses(g, c, o) == 0
    decreases Rank(c.value)
  {
    assert NodeOk(g, c);
    if |g[c]| > 0 {
      RankBoundsUses(g, g[c][0], o);
    }
    if |g[c]| > 1 {
      RankBoundsUses(g, g[c][1], o);
    }
  }

  /** Visiting an entry meets it once. */
  lemma MetOnce(g: Graph, c: ConstantObject)
    requires Closed(g) && c in g
    ensures Uses(g, c, c) == 1
  {
    assert NodeOk(g, c);
    if |g[c]| > 0 {
      RankBoundsUses(g, g[c][0], c);
    }
    if |g[c]| > 1 {
      RankBoundsUses(g, g[c][1], c);
    }
  }

  /** A component is met at least as often as the entry it belongs to. */
  lemma {:induction false} ComponentUses(g: Graph, c: ConstantObject, o: ConstantObject, k: nat)
    requires Closed(g) && c in g && o in g && k < |g[o]|
    ensures Uses(g, c, o) <= Uses(g, c, g[o][k])
    decreases Rank(c.value)
  {
    assert NodeOk(g, c) && NodeOk(g, o);
    if |g[c]| > 0 {
      ComponentUses(g, g[c][0], o, k);
    }
    if |g[c]| > 1 {
      ComponentUses(g, g[c][1], o, k);
    }
    if c == o {
      RankBoundsUses(g, g[c][0], c);
      if |g[c]| > 1 {
        RankBoundsUses(g, g[c][1], c);
      }
      assert Uses(g, g[c][k], g[c][k]) >= 1;
    }
  }

  lemma {:induction false} ComponentUsesAll(g: Graph, cs: seq<ConstantObject>, o: ConstantObject, k: nat)
    requires Closed(g) && Within(cs, g) && o in g && k < |g[o]|
    ensures UsesAll(g, cs, o) <= UsesAll(g, cs, g[o][k])
  {
    assert NodeOk(g, o);
    if cs != [] {
      ComponentUsesAll(g, cs[..|cs| - 1], o, k);
      ComponentUses(g, cs[|cs| - 1], o, k);
    }
  }

  /** The entries that stand in a table. */
  ghost function Entries(table: seq<ConstantObject?>): set<ConstantObject> {
    set c: ConstantObject | c in table
  }

  /** `incReference` on each entry of a list. */
  method CountList(cs: seq<ConstantObject>, ghost g: Graph)
    requires Closed(g) && Drawn(g)
    requires Within(cs, g)
    modifies g.Keys`references
    ensures forall o <- g :: o.references == old(o.references) + UsesAll(g, cs, o)
  {
    for i := 0 to |cs|
      invariant forall o <- g :: o.references == old(o.references) + UsesAll(g, cs[..i], o)
    {
      assert cs[..i + 1][..i] == cs[..i];
      cs[i].IncReference(g);
    }
    assert cs[..|cs|] == cs;
  }
}
