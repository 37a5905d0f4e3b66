/**
 What adding constants does to a pool, on values: the pool is a sequence of slots.
 */
module Interning {
  import opened Constants

  /** What a slot holds, as far as meaning goes. */
  datatype Slot = Blank | Entry(value: Value)

  function Appended(image: seq<Slot>, v: Value): seq<Slot> {
    image + (if Slots(v) == 2 then [Entry(v), Blank] else [Entry(v)])
  }

  /** The pool after a value has been added: its missing components first, then itself; nothing if it is there already. */
  function Intern(image: seq<Slot>, v: Value): (r: seq<Slot>)
    decreases Rank(v)
  {
    if Entry(v) in image then image
    else Appended(InternParts(image, v), v)
  }

  function InternParts(image: seq<Slot>, v: Value): (r: seq<Slot>)
    decreases Rank(v), 0
  {
    var ps := Parts(v);
    if |ps| == 0 then image
    else if |ps| == 1 then Intern(image, ps[0])
    else Intern(Intern(image, ps[0]), ps[1])
  }

  // ------------------------------------------------------- what every pool satisfies

  /** An entry has room and its components stand before it; a blank belongs to the entry before it. */
  ghost predicate SlotFine(image: seq<Slot>, i: nat)
    requires 1 <= i < |image|
  {
    match image[i]
    case Blank => i >= 2 && image[i - 1].Entry? && Slots(image[i - 1].value) == 2
    case Entry(v) =>
      && i + Slots(v) <= |image| && (Slots(v) == 2 ==> image[i + 1] == Blank)
      && forall p <- Parts(v) :: Entry(p) in image[..i]
  }

  /** No value stands in two slots. */
  ghost predicate Distinct(image: seq<Slot>) {
    forall i, j :: 0 <= i < j < |image| && image[i].Entry? ==> image[i] != image[j]
  }

  /** A pool without duplicates, in which every component stands before its users. */
  ghost predicate Fine(image: seq<Slot>) {
    && |image| >= 1 && image[0] == Blank
    && (forall i {:trigger SlotFine(image, i)} :: 1 <= i < |image| ==> SlotFine(image, i))
    && Distinct(image)
  }

  lemma AppendedFine(image: seq<Slot>, v: Value)
    requires Fine(image) && Entry(v) !in image && forall p <- Parts(v) :: Entry(p) in image
    ensures Fine(Appended(image, v))
  {
    var r := Appended(image, v);
    forall i | 1 <= i < |r| ensures SlotFine(r, i) {
      if i < |image| {
        assert SlotFine(image, i);
        assert r[..i] == image[..i];
      } else if i == |image| {
        assert r[..i] == image;
      }
    }
    forall i, j | 0 <= i < j < |r| && r[i].Entry? ensures r[i] != r[j] {
      if i < |image| && j < |image| {
        assert image[i] != image[j];
      } else if i < |image| {
        assert r[i] in image;
      }
    }
  }

  /** Adding a value keeps the pool fine, keeps what is there where it is, and puts the value in. */
  lemma {:induction false} InternFine(image: seq<Slot>, v: Value)
    requires Fine(image)
    ensures Fine(Intern(image, v)) && image <= Intern(image, v) && Entry(v) in Intern(image, v)
    ensures forall w :: Entry(w) in Intern(image, v) && Entry(w) !in image ==> w == v || Rank(w) < Rank(v)
    decreases Rank(v), 1
  {
    if Entry(v) !in image {
      InternPartsFine(image, v);
      var mid := InternParts(image, v);
      AppendedFine(mid, v);
      var r := Appended(mid, v);
      assert r[|mid|] == Entry(v);
      assert r[..|mid|] == mid;
    }
  }

  lemma {:induction false} InternPartsFine(image: seq<Slot>, v: Value)
    requires Fine(image) && Entry(v) !in image
    ensures var r := InternParts(image, v);
            && Fine(r) && image <= r && (forall p <- Parts(v) :: Entry(p) in r) && Entry(v) !in r
            && (forall w :: Entry(w) in r && Entry(w) !in image ==> Rank(w) < Rank(v))
    decreases Rank(v), 0
  {
    var ps := Parts(v);
    if |ps| > 0 {
      InternFine(image, ps[0]);
      var a := Intern(image, ps[0]);
      if |ps| > 1 {
        InternFine(a, ps[1]);
        var b := Intern(a, ps[1]);
        assert forall s :: s in a ==> s in b;
      }
    }
  }

  /** Adding a value twice is adding it once. */
  lemma InternTwice(image: seq<Slot>, v: Value)
    requires Fine(image)
    ensures Intern(Intern(image, v), v) == Intern(image, v)
  {
    InternFine(image, v);
  }

  function InternSeq(image: seq<Slot>, vs: seq<Value>): seq<Slot> {
    if vs == [] then image else Intern(InternSeq(image, vs[..|vs| - 1]), vs[|vs| - 1])
  }

  /** Whatever is added to an empty pool, in whatever order and however often, the pool is fine and holds it all. */
  lemma {:induction false} RunIsFine(vs: seq<Value>)
    ensures Fine(InternSeq([Blank], vs))
    ensures forall v <- vs :: Entry(v) in InternSeq([Blank], vs)
  {
    if vs != [] {
      var init, v := vs[..|vs| - 1], vs[|vs| - 1];
      RunIsFine(init);
      InternFine(InternSeq([Blank], init), v);
      assert vs == init + [v];
    }
  }

  /** Adds the entries of a table, in order, from slot `i` on. */
  function InternTable(image: seq<Slot>, table: seq<Slot>, i: nat): seq<Slot>
    decreases |table| - i
  {
    if i >= |table| then image
    else match table[i]
      case Blank => InternTable(image, table, i + 1)
      case Entry(v) => InternTable(Intern(image, v), table, i + Slots(v))
  }

  lemma {:induction false} PresentPartsAddNothing(image: seq<Slot>, v: Value)
    requires forall p <- Parts(v) :: Entry(p) in image
    ensures InternParts(image, v) == image
  {
    var ps := Parts(v);
    if |ps| > 0 {
      assert ps[0] in ps;
    }
    if |ps| > 1 {
      assert ps[1] in ps;
    }
  }

  /** Adding the entries of a fine pool, in order, to an empty one gives each its old index back. */
  lemma {:induction false} InternTableAgain(table: seq<Slot>, i: nat)
    requires Fine(table) && 1 <= i <= |table| && (i < |table| ==> table[i].Entry?)
    ensures InternTable(table[..i], table, i) == table
    decreases |table| - i
  {
    if i < |table| {
      assert SlotFine(table, i);
      var v := table[i].value;
      var next := i + Slots(v);
      assert Entry(v) !in table[..i];
      PresentPartsAddNothing(table[..i], v);
      assert Appended(table[..i], v) == table[..next];
      if next < |table| {
        assert SlotFine(table, next);
      }
      InternTableAgain(table, next);
    } else {
      assert table[..i] == table;
    }
  }

  /** The entries that adding a table adds, from slot `i` on. */
  ghost function EntriesFrom(table: seq<Slot>, i: nat): seq<Value>
    decreases |table| - i
  {
    if i >= |table| then []
    else match table[i]
      case Blank => EntriesFrom(table, i + 1)
      case Entry(v) => [v] + EntriesFrom(table, i + Slots(v))
  }

  /** Adding a table leaves a pool as it was exactly if the pool has all the entries. */
  lemma {:induction false} AddsNothingExactly(image: seq<Slot>, table: seq<Slot>, i: nat)
    requires Fine(image)
    ensures Fine(InternTable(image, table, i)) && image <= InternTable(image, table, i)
    ensures InternTable(image, table, i) == image <==> forall v <- EntriesFrom(table, i) :: Entry(v) in image
    decreases |table| - i
  {
    if i < |table| {
      match table[i]
      case Blank =>
        AddsNothingExactly(image, table, i + 1);
      case Entry(v) =>
        InternFine(image, v);
        AddsNothingExactly(Intern(image, v), table, i + Slots(v));
        hide Fine;
    }
  }
}
