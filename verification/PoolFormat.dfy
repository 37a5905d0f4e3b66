/**
 The class-file form of a constant pool (section 4.4 of the Java Virtual Machine Specification),
 as a stream of the primitive items that a data stream writes and reads; writing and reading back
 gives the same constants at the same indices.
 */
module PoolFormat {
  import opened Constants
  import opened Interning
  import opened Wrappers

  /** One call on a data stream: an unsigned byte, an unsigned short, an int, or a string. */
  datatype Item = U1(b: int) | U2(w: int) | I4(i: int) | Utf(s: string)

  const CONSTANT_UTF8 := 1
  const CONSTANT_INTEGER := 3
  const CONSTANT_FLOAT := 4
  const CONSTANT_LONG := 5
  const CONSTANT_DOUBLE := 6
  const CONSTANT_CLASS := 7
  const CONSTANT_STRING := 8
  const CONSTANT_FIELD := 9
  const CONSTANT_METHOD := 10
  const CONSTANT_INTERFACEMETHOD := 11
  const CONSTANT_NAMEANDTYPE := 12

  function SingleTag(k: SingleKind): int {
    match k
    case IntegerKind => CONSTANT_INTEGER
    case FloatKind => CONSTANT_FLOAT
  }

  function DoubleTag(k: DoubleKind): int {
    match k
    case LongKind => CONSTANT_LONG
    case DoubleKind => CONSTANT_DOUBLE
  }

  function RefTag(k: RefKind): int {
    match k
    case FieldKind => CONSTANT_FIELD
    case MethodKind => CONSTANT_METHOD
    case InterfaceMethodKind => CONSTANT_INTERFACEMETHOD
  }

  // ---------------------------------------------------------------- writing

  /** The first slot, from `i` on, that holds `v`. */
  function IndexFrom(image: seq<Slot>, v: Value, i: nat): (k: nat)
    requires i <= |image|
    ensures i <= k <= |image|
    ensures k < |image| ==> image[k] == Entry(v)
    ensures Entry(v) in image[i..] ==> k < |image|
    decreases |image| - i
  {
    if i == |image| || image[i] == Entry(v) then i
    else
      assert image[i..] == [image[i]] + image[i + 1..];
      IndexFrom(image, v, i + 1)
  }

  function IndexOf(image: seq<Slot>, v: Value): (k: nat)
    ensures k <= |image|
    ensures Entry(v) in image ==> k < |image| && image[k] == Entry(v)
  {
    assert image[0..] == image;
    IndexFrom(image, v, 0)
  }

  function Short(image: seq<Slot>, v: Value): Item {
    U2(IndexOf(image, v) % 0x1_0000)
  }

  /** What an entry writes: its tag, then its data or the indices of its components, each cut to a short. */
  function WriteEntry(image: seq<Slot>, v: Value): seq<Item> {
    match v
    case Utf8(s) => [U1(CONSTANT_UTF8), Utf(s)]
    case Single(k, word) => [U1(SingleTag(k)), I4(word)]
    case Double(k, high, low) => [U1(DoubleTag(k)), I4(high), I4(low)]
    case Str(s) => [U1(CONSTANT_STRING), Short(image, Utf8(s))]
    case NameAndType(n, t) => [U1(CONSTANT_NAMEANDTYPE), Short(image, Utf8(n)), Short(image, Utf8(t))]
    case Class(n) => [U1(CONSTANT_CLASS), Short(image, Utf8(n))]
    case Ref(k, c, n, t) => [U1(RefTag(k)), Short(image, Class(c)), Short(image, NameAndType(n, t))]
  }

  /** The entries from slot `i` on, in order. */
  function WriteFrom(image: seq<Slot>, i: nat): seq<Item>
    decreases |image| - i
  {
    if i >= |image| then []
    else match image[i]
      case Blank => WriteFrom(image, i + 1)
      case Entry(v) => WriteEntry(image, v) + WriteFrom(image, i + Slots(v))
  }

  function WritePool(image: seq<Slot>): seq<Item> {
    [U2(|image| % 0x1_0000)] + WriteFrom(image, 1)
  }

  /** The tag of a member reference, by number. */
  function RefNumber(k: RefKind): int {
    match k
    case FieldKind => 9
    case MethodKind => 10
    case InterfaceMethodKind => 11
  }

  lemma AddsOne(image: seq<Slot>, v: Value)
    requires Entry(v) !in image && forall p <- Parts(v) :: Entry(p) in image
    ensures Intern(image, v) == image + (if v.Double? then [Entry(v), Blank] else [Entry(v)])
  {
    PresentPartsAddNothing(image, v);
  }

  lemma {:induction false} FirstIndex(image: seq<Slot>, v: Value, i: nat)
    requires i <= |image|
    ensures forall j :: i <= j < IndexFrom(image, v, i) ==> image[j] != Entry(v)
    decreases |image| - i
  {
    if i < |image| && image[i] != Entry(v) {
      FirstIndex(image, v, i + 1);
    }
  }

  lemma StandsAt(image: seq<Slot>, v: Value, k: nat)
    requires k < |image| && image[k] == Entry(v) && forall i :: 0 <= i < k ==> image[i] != Entry(v)
    ensures IndexOf(image, v) == k
  {
    assert Entry(v) in image;
    assert image[0..] == image;
    var i := IndexOf(image, v);
    FirstIndex(image, v, 0);
  }

  lemma WrittenAt(image: seq<Slot>, i: nat, items: seq<Item>)
    requires i < |image| && image[i].Entry? && WriteEntry(image, image[i].value) == items
    ensures WriteFrom(image, i) ==
            if i + Slots(image[i].value) < |image| then items + WriteFrom(image, i + Slots(image[i].value)) else items
  {
  }

  function ReferenceSlots(k: RefKind, cls: string, name: string, typ: string): seq<Slot> {
    [Blank, Entry(Utf8(name)), Entry(Utf8(typ)), Entry(NameAndType(name, typ)),
     Entry(Utf8(cls)), Entry(Class(cls)), Entry(Ref(k, cls, name, typ))]
  }

  lemma ReferencePlaces(k: RefKind, cls: string, name: string, typ: string)
    requires cls != name && cls != typ && name != typ
    ensures var r := ReferenceSlots(k, cls, name, typ);
            && IndexOf(r, Utf8(name)) == 1 && IndexOf(r, Utf8(typ)) == 2 && IndexOf(r, NameAndType(name, typ)) == 3
            && IndexOf(r, Utf8(cls)) == 4 && IndexOf(r, Class(cls)) == 5
  {
    var r := ReferenceSlots(k, cls, name, typ);
    StandsAt(r, Utf8(name), 1);
    StandsAt(r, Utf8(typ), 2);
    StandsAt(r, NameAndType(name, typ), 3);
    StandsAt(r, Utf8(cls), 4);
    StandsAt(r, Class(cls), 5);
  }

  lemma ReferenceBegin(k: RefKind, cls: string, name: string, typ: string)
    requires cls != name && cls != typ && name != typ
    ensures var r := ReferenceSlots(k, cls, name, typ);
            WriteFrom(r, 1) == [U1(1), Utf(name), U1(1), Utf(typ), U1(12), U2(1), U2(2)] + WriteFrom(r, 4)
  {
    ReferencePlaces(k, cls, name, typ);
    var r := ReferenceSlots(k, cls, name, typ);
    hide IndexOf, WriteFrom;
    WrittenAt(r, 3, [U1(12), U2(1), U2(2)]);
    WrittenAt(r, 2, [U1(1), Utf(typ)]);
    WrittenAt(r, 1, [U1(1), Utf(name)]);
  }

  lemma ReferenceEnd(k: RefKind, cls: string, name: string, typ: string)
    requires cls != name && cls != typ && name != typ
    ensures WriteFrom(ReferenceSlots(k, cls, name, typ), 4) ==
            [U1(1), Utf(cls), U1(7), U2(4), U1(RefNumber(k)), U2(5), U2(3)]
  {
    ReferencePlaces(k, cls, name, typ);
    var r := ReferenceSlots(k, cls, name, typ);
    hide IndexOf, WriteFrom;
    WrittenAt(r, 6, [U1(RefNumber(k)), U2(5), U2(3)]);
    WrittenAt(r, 5, [U1(7), U2(4)]);
    WrittenAt(r, 4, [U1(1), Utf(cls)]);
  }

  lemma ReferenceAdded(k: RefKind, cls: string, name: string, typ: string)
    requires cls != name && cls != typ && name != typ
    ensures Intern([Blank], Ref(k, cls, name, typ)) == ReferenceSlots(k, cls, name, typ)
  {
    var one := [Blank] + [Entry(Utf8(name))];
    var two := one + [Entry(Utf8(typ))];
    var both := two + [Entry(NameAndType(name, typ))];
    AddsOne([Blank], Utf8(name));
    AddsOne(one, Utf8(typ));
    AddsOne(both, Utf8(cls));
    assert InternParts([Blank], NameAndType(name, typ)) == two;
    assert Intern([Blank], NameAndType(name, typ)) == both;
    assert InternParts(both, Class(cls)) == both + [Entry(Utf8(cls))];
    assert Intern(both, Class(cls)) == both + [Entry(Utf8(cls)), Entry(Class(cls))];
    assert InternParts([Blank], Ref(k, cls, name, typ)) == both + [Entry(Utf8(cls)), Entry(Class(cls))];
  }

  /** A pool of one member reference, to the byte: its name, its type and both together come first, then its class. */
  lemma ReferenceWritten(k: RefKind, cls: string, name: string, typ: string)
    requires cls != name && cls != typ && name != typ
    ensures WritePool(Intern([Blank], Ref(k, cls, name, typ))) ==
            [U2(7), U1(1), Utf(name), U1(1), Utf(typ), U1(12), U2(1), U2(2),
             U1(1), Utf(cls), U1(7), U2(4), U1(RefNumber(k)), U2(5), U2(3)]
  {
    hide Intern, WriteFrom;
    ReferenceAdded(k, cls, name, typ);
    ReferenceBegin(k, cls, name, typ);
    ReferenceEnd(k, cls, name, typ);
  }

  function NumbersSlots(high: int, low: int, word: int, text: string): seq<Slot> {
    [Blank, Entry(Double(LongKind, high, low)), Blank, Entry(Double(DoubleKind, high, low)), Blank,
     Entry(Single(IntegerKind, word)), Entry(Single(FloatKind, word)), Entry(Utf8(text)), Entry(Str(text))]
  }

  lemma NumbersAdded(high: int, low: int, word: int, text: string)
    ensures var a := Intern(Intern([Blank], Double(LongKind, high, low)), Double(DoubleKind, high, low));
            var b := Intern(Intern(a, Single(IntegerKind, word)), Single(FloatKind, word));
            Intern(b, Str(text)) == NumbersSlots(high, low, word, text)
  {
    var long := [Blank] + [Entry(Double(LongKind, high, low)), Blank];
    var a := long + [Entry(Double(DoubleKind, high, low)), Blank];
    var int1 := a + [Entry(Single(IntegerKind, word))];
    var b := int1 + [Entry(Single(FloatKind, word))];
    AddsOne([Blank], Double(LongKind, high, low));
    AddsOne(long, Double(DoubleKind, high, low));
    AddsOne(a, Single(IntegerKind, word));
    AddsOne(int1, Single(FloatKind, word));
    AddsOne(b, Utf8(text));
    assert InternParts(b, Str(text)) == b + [Entry(Utf8(text))];
  }

  lemma NumbersEnd(high: int, low: int, word: int, text: string)
    ensures WriteFrom(NumbersSlots(high, low, word, text), 6) == [U1(4), I4(word), U1(1), Utf(text), U1(8), U2(7)]
  {
    var r := NumbersSlots(high, low, word, text);
    StandsAt(r, Utf8(text), 7);
    hide IndexOf, WriteFrom;
    WrittenAt(r, 8, [U1(8), U2(7)]);
    WrittenAt(r, 7, [U1(1), Utf(text)]);
    WrittenAt(r, 6, [U1(4), I4(word)]);
  }

  lemma NumbersBegin(high: int, low: int, word: int, text: string)
    ensures var r := NumbersSlots(high, low, word, text);
            WriteFrom(r, 1) == [U1(5), I4(high), I4(low), U1(6), I4(high), I4(low), U1(3), I4(word)] + WriteFrom(r, 6)
  {
    var r := NumbersSlots(high, low, word, text);
    hide IndexOf, WriteFrom;
    WrittenAt(r, 5, [U1(3), I4(word)]);
    WrittenAt(r, 3, [U1(6), I4(high), I4(low)]);
    WrittenAt(r, 1, [U1(5), I4(high), I4(low)]);
  }

  /** A pool of numbers and a string, to the byte: after a long or a double the next index is two higher. */
  lemma NumbersWritten(high: int, low: int, word: int, text: string)
    ensures var a := Intern(Intern([Blank], Double(LongKind, high, low)), Double(DoubleKind, high, low));
            var b := Intern(Intern(a, Single(IntegerKind, word)), Single(FloatKind, word));
            WritePool(Intern(b, Str(text))) ==
            [U2(9), U1(5), I4(high), I4(low), U1(6), I4(high), I4(low), U1(3), I4(word), U1(4), I4(word),
             U1(1), Utf(text), U1(8), U2(7)]
  {
    hide Intern, WriteFrom;
    NumbersAdded(high, low, word, text);
    NumbersBegin(high, low, word, text);
    NumbersEnd(high, low, word, text);
  }

  // ---------------------------------------------------------------- reading

  /** An entry as read, with component indices not yet resolved. */
  datatype Raw =
    | NoEntry
    | Plain(value: Value)
    | OneIndex(tag: int, i: int)
    | TwoIndices(tag: int, i: int, j: int)

  predicate KnownTag(tag: int) {
    tag == CONSTANT_UTF8 || CONSTANT_INTEGER <= tag <= CONSTANT_NAMEANDTYPE
  }

  /** Reads one entry and returns it with what is left; fails on an unknown tag or a truncated entry. */
  function ReadEntry(items: seq<Item>): (r: Option<(Raw, seq<Item>)>)
    ensures r.Some? ==> |r.value.1| < |items| && items[0].U1? && KnownTag(items[0].b)
    ensures r.Some? ==> r.value.1 == items[|items| - |r.value.1|..]
  {
    if |items| < 2 || !items[0].U1? then None
    else
      var tag := items[0].b;
      if tag == CONSTANT_UTF8 then
        if items[1].Utf? then Some((Plain(Utf8(items[1].s)), items[2..])) else None
      else if tag == CONSTANT_INTEGER || tag == CONSTANT_FLOAT then
        if items[1].I4? then Some((Plain(Single(if tag == CONSTANT_INTEGER then IntegerKind else FloatKind, items[1].i)), items[2..])) else None
      else if tag == CONSTANT_LONG || tag == CONSTANT_DOUBLE then
        if |items| >= 3 && items[1].I4? && items[2].I4? then
          Some((Plain(Double(if tag == CONSTANT_LONG then LongKind else DoubleKind, items[1].i, items[2].i)), items[3..]))
        else None
      else if tag == CONSTANT_STRING || tag == CONSTANT_CLASS then
        if items[1].U2? then Some((OneIndex(tag, items[1].w), items[2..])) else None
      else if CONSTANT_FIELD <= tag <= CONSTANT_NAMEANDTYPE then
        if |items| >= 3 && items[1].U2? && items[2].U2? then Some((TwoIndices(tag, items[1].w, items[2].w), items[3..])) else None
      else None
  }

  function RawSlots(r: Raw): (n: nat)
    ensures n == 1 || n == 2
  {
    if r.Plain? then Slots(r.value) else 1
  }

  /** Reads entries until slot `n` is reached; `table` holds the slots before. */
  function ReadEntries(items: seq<Item>, table: seq<Raw>, n: int): Option<seq<Raw>>
    decreases |items|
  {
    if |table| >= n then Some(table)
    else
      match ReadEntry(items)
      case None => None
      case Some((raw, rest)) =>
        ReadEntries(rest, table + (if RawSlots(raw) == 2 then [raw, NoEntry] else [raw]), n)
  }

  function Text(table: seq<Raw>, i: int): Option<string> {
    if 0 <= i < |table| && table[i].Plain? && table[i].value.Utf8? then Some(table[i].value.text) else None
  }

  function NameTypeAt(table: seq<Raw>, i: int): Option<Value> {
    if 0 <= i < |table| && table[i].TwoIndices? && table[i].tag == CONSTANT_NAMEANDTYPE then
      match (Text(table, table[i].i), Text(table, table[i].j))
      case (Some(n), Some(t)) => Some(NameAndType(n, t))
      case _ => None
    else None
  }

  function ClassAt(table: seq<Raw>, i: int): Option<Value> {
    if 0 <= i < |table| && table[i].OneIndex? && table[i].tag == CONSTANT_CLASS then
      match Text(table, table[i].i)
      case Some(n) => Some(Class(n))
      case None => None
    else None
  }

  /** The meaning of the entry at slot `i` once its indices are resolved; a component of the wrong kind is an error. */
  function Resolve(table: seq<Raw>, i: nat): Option<Slot>
    requires i < |table|
  {
    match table[i]
    case NoEntry => Some(Blank)
    case Plain(v) => Some(Entry(v))
    case OneIndex(tag, k) =>
      (match Text(table, k)
       case Some(s) => Some(Entry(if tag == CONSTANT_STRING then Str(s) else Class(s)))
       case None => None)
    case TwoIndices(tag, k, l) =>
      if tag == CONSTANT_NAMEANDTYPE then
        match NameTypeAt(table, i)
        case Some(v) => Some(Entry(v))
        case None => None
      else
        match (ClassAt(table, k), NameTypeAt(table, l))
        case (Some(c), Some(s)) =>
          var kind := if tag == CONSTANT_FIELD then FieldKind else if tag == CONSTANT_METHOD then MethodKind else InterfaceMethodKind;
          Some(Entry(Ref(kind, c.name, s.name, s.typ)))
        case _ => None
  }

  /** The meanings of the first `n` slots, up to the first entry that has none. */
  function Resolved(table: seq<Raw>, n: nat): (r: seq<Slot>)
    requires n <= |table|
    ensures |r| <= n && (|r| < n ==> Resolve(table, |r|).None?)
    ensures forall i :: 0 <= i < |r| ==> Resolve(table, i) == Some(r[i])
  {
    if n == 0 then []
    else
      var r := Resolved(table, n - 1);
      if |r| < n - 1 then r
      else match Resolve(table, n - 1)
        case Some(slot) => r + [slot]
        case None => r
  }

  /** The slots that a stream describes, not yet resolved. */
  function ReadSlots(items: seq<Item>): Option<seq<Raw>> {
    if |items| == 0 || !items[0].U2? then None else ReadEntries(items[1..], [NoEntry], items[0].w)
  }

  /** The table of constants that a stream describes. */
  function ReadTable(items: seq<Item>): Option<seq<Slot>> {
    match ReadSlots(items)
    case None => None
    case Some(table) =>
      var r := Resolved(table, |table|);
      if |r| == |table| then Some(r) else None
  }

  /** An index below `n` that leads to an empty slot or to an entry of the right kind: no cast fails there. */
  predicate TextOrEmpty(table: seq<Raw>, n: int, k: int) {
    0 <= k < n && k < |table| && (table[k].NoEntry? || (table[k].Plain? && table[k].value.Utf8?))
  }

  predicate ClassOrEmpty(table: seq<Raw>, n: int, k: int) {
    0 <= k < n && k < |table| && (table[k].NoEntry? || (table[k].OneIndex? && table[k].tag == CONSTANT_CLASS))
  }

  predicate NameTypeOrEmpty(table: seq<Raw>, n: int, k: int) {
    0 <= k < n && k < |table| && (table[k].NoEntry? || (table[k].TwoIndices? && table[k].tag == CONSTANT_NAMEANDTYPE))
  }

  /** The entry at slot `i` can be given its components; components from empty slots are missing ones. */
  predicate CastsAt(table: seq<Raw>, n: int, i: nat)
    requires i < |table|
  {
    match table[i]
    case OneIndex(_, k) => TextOrEmpty(table, n, k)
    case TwoIndices(tag, k, l) =>
      if tag == CONSTANT_NAMEANDTYPE then TextOrEmpty(table, n, k) && TextOrEmpty(table, n, l)
      else ClassOrEmpty(table, n, k) && NameTypeOrEmpty(table, n, l)
    case _ => true
  }

  predicate Castable(table: seq<Raw>, n: int) {
    forall i :: 0 <= i < |table| ==> CastsAt(table, n, i)
  }

  /**
   What reading a stream adds to a pool: nothing if the stream is malformed or an index leads to an entry of
   the wrong kind, else the entries before the first that has, at some depth, a missing component.
   */
  function Added(items: seq<Item>): seq<Slot> {
    match ReadSlots(items)
    case None => []
    case Some(table) => if Castable(table, items[0].w) then Resolved(table, |table|) else []
  }

  // ---------------------------------------------------------------- round trip

  /** An entry as it will be read back. */
  ghost function RawOf(image: seq<Slot>, slot: Slot): Raw {
    match slot
    case Blank => NoEntry
    case Entry(Str(s)) => OneIndex(CONSTANT_STRING, Short(image, Utf8(s)).w)
    case Entry(Class(n)) => OneIndex(CONSTANT_CLASS, Short(image, Utf8(n)).w)
    case Entry(NameAndType(n, t)) => TwoIndices(CONSTANT_NAMEANDTYPE, Short(image, Utf8(n)).w, Short(image, Utf8(t)).w)
    case Entry(Ref(k, c, n, t)) => TwoIndices(RefTag(k), Short(image, Class(c)).w, Short(image, NameAndType(n, t)).w)
    case Entry(v) => Plain(v)
  }

  ghost function RawTable(image: seq<Slot>): (r: seq<Raw>)
    ensures |r| == |image|
    ensures forall i :: 0 <= i < |image| ==> r[i] == RawOf(image, image[i])
  {
    seq(|image|, i requires 0 <= i < |image| => RawOf(image, image[i]))
  }

  lemma EntryReadsBack(image: seq<Slot>, v: Value, rest: seq<Item>)
    ensures ReadEntry(WriteEntry(image, v) + rest) == Some((RawOf(image, Entry(v)), rest))
    ensures RawSlots(RawOf(image, Entry(v))) == Slots(v)
  {
    var w := WriteEntry(image, v);
    assert (w + rest)[|w|..] == rest;
  }

  lemma {:induction false} ReadStep(items: seq<Item>, table: seq<Raw>, n: int, raw: Raw, rest: seq<Item>)
    requires |table| < n && ReadEntry(items) == Some((raw, rest))
    ensures ReadEntries(items, table, n) == ReadEntries(rest, table + (if RawSlots(raw) == 2 then [raw, NoEntry] else [raw]), n)
  {
  }

  lemma {:induction false} WriteStep(image: seq<Slot>, i: nat)
    requires i < |image| && image[i].Entry?
    ensures WriteFrom(image, i) == WriteEntry(image, image[i].value) + WriteFrom(image, i + Slots(image[i].value))
  {
  }

  lemma NextEntry(image: seq<Slot>, i: nat)
    requires Fine(image) && 1 <= i < |image| && image[i].Entry?
    ensures var next := i + Slots(image[i].value);
            && next <= |image| && (next < |image| ==> image[next].Entry?)
            && (next == i + 2 ==> image[i + 1] == Blank)
  {
    assert SlotFine(image, i);
    var next := i + Slots(image[i].value);
    if next < |image| {
      assert SlotFine(image, next);
    }
  }

  lemma {:induction false} TableStep(image: seq<Slot>, i: nat)
    requires Fine(image) && 1 <= i < |image| && image[i].Entry?
    ensures var v := image[i].value; var next := i + Slots(v);
            && next <= |image| && (next < |image| ==> image[next].Entry?)
            && RawTable(image)[..next] == RawTable(image)[..i] + (if Slots(v) == 2 then [RawOf(image, Entry(v)), NoEntry] else [RawOf(image, Entry(v))])
  {
    NextEntry(image, i);
    assert RawOf(image, Blank) == NoEntry;
    hide Fine, RawOf, RawTable, Slots;
    var table := RawTable(image);
    assert table[..i + 1] == table[..i] + [table[i]];
    if Slots(image[i].value) == 2 {
      assert table[..i + 2] == table[..i] + [table[i], table[i + 1]];
    }
  }

  lemma OneEntry(image: seq<Slot>, i: nat, table: seq<Raw>)
    requires Fine(image) && 1 <= i < |image| && image[i].Entry? && table == RawTable(image)
    ensures var next := i + Slots(image[i].value);
            && next <= |image| && (next < |image| ==> image[next].Entry?)
            && ReadEntries(WriteFrom(image, i), table[..i], |image|) == ReadEntries(WriteFrom(image, next), table[..next], |image|)
  {
    var v := image[i].value;
    var rest := WriteFrom(image, i + Slots(v));
    assert SlotFine(image, i);
    hide WriteEntry, WriteFrom, ReadEntry, ReadEntries, SlotFine;
    WriteStep(image, i);
    TableStep(image, i);
    EntryReadsBack(image, v, rest);
    ReadStep(WriteFrom(image, i), table[..i], |image|, RawOf(image, Entry(v)), rest);
  }

  lemma NothingLeft(image: seq<Slot>)
    ensures ReadEntries(WriteFrom(image, |image|), RawTable(image)[..|image|], |image|) == Some(RawTable(image))
  {
    assert RawTable(image)[..|image|] == RawTable(image);
  }

  lemma {:induction false} EntriesReadBack(image: seq<Slot>, i: nat)
    requires Fine(image) && 1 <= i <= |image| && (i < |image| ==> image[i].Entry?)
    ensures ReadEntries(WriteFrom(image, i), RawTable(image)[..i], |image|) == Some(RawTable(image))
    decreases |image| - i
  {
    hide *;
    if i == |image| {
      NothingLeft(image);
    } else {
      OneEntry(image, i, RawTable(image));
      EntriesReadBack(image, i + Slots(image[i].value));
    }
  }

  /** A component's short index leads to it, and a class or a name-and-type resolves there. */
  lemma {:induction false} PartResolves(image: seq<Slot>, i: nat, p: Value)
    requires Fine(image) && |image| <= 0x1_0000 && 1 <= i < |image| && image[i].Entry? && p in Parts(image[i].value)
    ensures p.Utf8? ==> Text(RawTable(image), Short(image, p).w) == Some(p.text)
    ensures p.Class? ==> ClassAt(RawTable(image), Short(image, p).w) == Some(p)
    ensures p.NameAndType? ==> NameTypeAt(RawTable(image), Short(image, p).w) == Some(p)
    decreases Rank(p)
  {
    assert SlotFine(image, i);
    assert image == image[..i] + image[i..];
    var k := IndexOf(image, p);
    assert k < |image| && image[k] == Entry(p) && k > 0;
    assert k % 0x1_0000 == k;
    if p.Class? {
      assert Utf8(p.name) in Parts(p);
      PartResolves(image, k, Utf8(p.name));
    } else if p.NameAndType? {
      assert Utf8(p.name) in Parts(p) && Utf8(p.typ) in Parts(p);
      PartResolves(image, k, Utf8(p.name));
      PartResolves(image, k, Utf8(p.typ));
    }
  }

  lemma RefResolvesBack(image: seq<Slot>, i: nat)
    requires Fine(image) && |image| <= 0x1_0000 && 0 < i < |image| && image[i].Entry? && image[i].value.Ref?
    ensures Resolve(RawTable(image), i) == Some(image[i])
  {
    hide ClassAt, NameTypeAt, Fine, SlotFine, Short;
    var v := image[i].value;
    var c, s := Class(v.cls), NameAndType(v.name, v.typ);
    assert c in Parts(v) && s in Parts(v);
    PartResolves(image, i, c);
    PartResolves(image, i, s);
  }

  /** With indices that fit a short, every entry resolves to itself. */
  lemma ResolvesBack(image: seq<Slot>, i: nat)
    requires Fine(image) && |image| <= 0x1_0000 && i < |image|
    ensures Resolve(RawTable(image), i) == Some(image[i])
  {
    if i > 0 && image[i].Entry? {
      var v := image[i].value;
      if v.Ref? {
        RefResolvesBack(image, i);
      } else {
        assert v.Str? ==> Utf8(v.text) in Parts(v);
        assert v.Class? ==> Utf8(v.name) in Parts(v);
        assert v.NameAndType? ==> Utf8(v.name) in Parts(v) && Utf8(v.typ) in Parts(v);
        forall p | p in Parts(v) ensures p.Utf8? && Text(RawTable(image), Short(image, p).w) == Some(p.text) {
          PartResolves(image, i, p);
        }
      }
    }
  }

  lemma AllResolveBack(image: seq<Slot>)
    requires Fine(image) && |image| <= 0x1_0000
    ensures Resolved(RawTable(image), |image|) == image
  {
    var table := RawTable(image);
    var r := Resolved(table, |image|);
    if |r| < |image| {
      ResolvesBack(image, |r|);
      assert false;
    }
    forall i | 0 <= i < |image| ensures r[i] == image[i] {
      ResolvesBack(image, i);
    }
  }

  lemma {:induction false} ReadLength(items: seq<Item>, table: seq<Raw>, n: int)
    ensures var r := ReadEntries(items, table, n); r.Some? ==> |table| <= |r.value| && (|r.value| <= n + 1 || r.value == table)
    decreases |items|
  {
    if |table| < n && ReadEntry(items).Some? {
      var (raw, rest) := ReadEntry(items).value;
      var grown := table + (if RawSlots(raw) == 2 then [raw, NoEntry] else [raw]);
      ReadLength(rest, grown, n);
    }
  }

  /** A pool of more slots than a short can count is not read back: its count is cut. */
  lemma TooManySlots(image: seq<Slot>)
    requires |image| >= 0x1_0000
    ensures ReadTable(WritePool(image)) != Some(image)
  {
    var items := WritePool(image);
    var n := |image| % 0x1_0000;
    ReadLength(items[1..], [NoEntry], n);
  }

  /** There are pools of that size: 65535 different integers. */
  lemma FullPool() returns (image: seq<Slot>)
    ensures Fine(image) && |image| == 0x1_0000 && ReadTable(WritePool(image)) != Some(image)
  {
    image := seq(0x1_0000, i => if i == 0 then Blank else Entry(Single(IntegerKind, i)));
    forall i | 1 <= i < |image| ensures SlotFine(image, i) {
      assert image[i] == Entry(Single(IntegerKind, i));
    }
    TooManySlots(image);
  }

  /** Reading what was written gives the same constants at the same indices, if the number of slots fits a short. */
  lemma ReadBack(image: seq<Slot>)
    requires Fine(image) && |image| < 0x1_0000
    ensures ReadTable(WritePool(image)) == Some(image)
  {
    if |image| > 1 {
      assert SlotFine(image, 1);
    }
    var items, table := WritePool(image), RawTable(image);
    assert table[..1] == [NoEntry] && items[1..] == WriteFrom(image, 1) && items[0].w == |image|;
    EntriesReadBack(image, 1);
    assert ReadEntries(items[1..], [NoEntry], items[0].w) == Some(table);
    AllResolveBack(image);
  }

  /** Writing and reading back is the identity exactly for the pools whose number of slots fits a short. */
  lemma ReadBackExactly(image: seq<Slot>)
    requires Fine(image)
    ensures ReadTable(WritePool(image)) == Some(image) <==> |image| < 0x1_0000
  {
    if |image| < 0x1_0000 {
      ReadBack(image);
    } else {
      TooManySlots(image);
    }
  }

  /** A pool written and read into an empty one: the same constants at the same indices, exactly when the count fits a short. */
  lemma {:induction false} RoundTrip(image: seq<Slot>)
    requires Fine(image)
    ensures ReadTable(WritePool(image)) == Some(image) <==> |image| < 0x1_0000
    ensures InternTable([Blank], image, 1) == image
  {
    ReadBackExactly(image);
    if |image| > 1 {
      assert SlotFine(image, 1);
    }
    assert image[..1] == [Blank];
    InternTableAgain(image, 1);
  }

  // ---------------------------------------------------------------- streams that are not well formed

  /** No slot beyond the count holds an entry. */
  lemma {:induction false} NothingBeyond(items: seq<Item>, table: seq<Raw>, n: int)
    requires forall i :: 0 <= i < |table| && n <= i ==> table[i].NoEntry?
    ensures var r := ReadEntries(items, table, n); r.Some? ==> forall i :: 0 <= i < |r.value| && n <= i ==> r.value[i].NoEntry?
    decreases |items|
  {
    if |table| < n && ReadEntry(items).Some? {
      var (raw, rest) := ReadEntry(items).value;
      NothingBeyond(rest, table + (if RawSlots(raw) == 2 then [raw, NoEntry] else [raw]), n);
    }
  }

  lemma ResolvableCasts(table: seq<Raw>, n: int, i: nat)
    requires i < |table| && Resolve(table, i).Some? && forall k :: 0 <= k < |table| && n <= k ==> table[k].NoEntry?
    ensures CastsAt(table, n, i)
  {
  }

  /** A table that can be read is what reading adds. */
  lemma ReadIsAdded(items: seq<Item>)
    ensures ReadTable(items).Some? ==> Castable(ReadSlots(items).value, items[0].w) && Added(items) == ReadTable(items).value
  {
    if ReadTable(items).Some? {
      var table, n := ReadSlots(items).value, items[0].w;
      NothingBeyond(items[1..], [NoEntry], n);
      forall i | 0 <= i < |table| ensures CastsAt(table, n, i) {
        ResolvableCasts(table, n, i);
      }
    }
  }

  /** A stream of two entries that fails but adds the first: the second has no text. */
  lemma FailsHalfway()
    ensures var items := [U2(3), U1(CONSTANT_UTF8), Utf("a"), U1(CONSTANT_STRING), U2(0)];
            ReadTable(items).None? && Added(items) == [Blank, Entry(Utf8("a"))]
  {
    var items := [U2(3), U1(CONSTANT_UTF8), Utf("a"), U1(CONSTANT_STRING), U2(0)];
    var one := [NoEntry, Plain(Utf8("a"))];
    var table := one + [OneIndex(CONSTANT_STRING, 0)];
    assert [NoEntry] + [one[1]] == one && one + [table[2]] == table;
    assert items[1..][2..] == items[3..] && items[3..][2..] == items[5..];
    ReadStep(items[1..], [NoEntry], 3, one[1], items[3..]);
    ReadStep(items[3..], one, 3, table[2], items[5..]);
    assert Resolved(table, 2) == [Blank, Entry(Utf8("a"))] && Resolve(table, 2).None?;
  }
}
