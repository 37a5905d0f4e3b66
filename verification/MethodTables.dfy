/**
 Method tables: a class's table starts as its superclass's; each of its own virtual methods takes the
 slot of the method it overrides, or a new slot. A slot then holds what looking the method up along the
 superclass chain would find.
 */
module MethodTables {
  import opened Sets
  import opened Wrappers

  /** A method is identified in a class by its name and type. */
  datatype Signature = Signature(name: string, typ: string)

  const CONSTRUCTOR := "<init>"
  const FINALIZE := Signature("finalize", "()V")

  class Method {
    const signature: Signature
    const isStatic: bool
    const isPrivate: bool
    var methodTableIndex: int

    constructor (signature: Signature, isStatic: bool, isPrivate: bool)
      ensures this.signature == signature && this.isStatic == isStatic && this.isPrivate == isPrivate && methodTableIndex == -1
    {
      this.signature, this.isStatic, this.isPrivate, methodTableIndex := signature, isStatic, isPrivate, -1;
    }

    /** Methods that a table may hold. */
    predicate IsVirtual() {
      !isStatic && !isPrivate && signature.name != CONSTRUCTOR
    }
  }

  /** The methods of one class; `root` if it has no superclass. */
  datatype Layer = Layer(methods: seq<Method>, root: bool)

  // ---------------------------------------------------------------- lookup

  /** The first virtual method with the signature among the methods from `i` on. */
  function FindIn(methods: seq<Method>, sig: Signature, i: nat): (r: Option<Method>)
    requires i <= |methods|
    decreases |methods| - i
  {
    if i == |methods| then None
    else if methods[i].IsVirtual() && methods[i].signature == sig then Some(methods[i])
    else FindIn(methods, sig, i + 1)
  }

  /** Looks a virtual method up in the class of layer `n - 1`, then in its superclass, and so on. */
  function Lookup(layers: seq<Layer>, n: nat, sig: Signature): Option<Method>
    requires n <= |layers|
  {
    if n == 0 then None
    else match FindIn(layers[n - 1].methods, sig, 0)
      case Some(m) => Some(m)
      case None => Lookup(layers, n - 1, sig)
  }

  lemma {:induction false} FindInFinds(methods: seq<Method>, sig: Signature, i: nat)
    requires i <= |methods|
    ensures match FindIn(methods, sig, i)
            case Some(m) => m in methods[i..] && m.IsVirtual() && m.signature == sig
            case None => forall k :: i <= k < |methods| ==> !(methods[k].IsVirtual() && methods[k].signature == sig)
    decreases |methods| - i
  {
    if i < |methods| && !(methods[i].IsVirtual() && methods[i].signature == sig) {
      FindInFinds(methods, sig, i + 1);
    }
  }

  ghost predicate DistinctSignatures(methods: seq<Method>) {
    forall i, j :: 0 <= i < j < |methods| ==> methods[i].signature != methods[j].signature
  }

  /** In a class without two methods of one signature, lookup finds the one there is. */
  lemma FindInFindsOnly(methods: seq<Method>, k: nat)
    requires DistinctSignatures(methods) && k < |methods| && methods[k].IsVirtual()
    ensures FindIn(methods, methods[k].signature, 0) == Some(methods[k])
  {
    FindInFinds(methods, methods[k].signature, 0);
  }

  /** The first method with the signature, whatever its kind, among those from `i` on. */
  function FindAnyIn(methods: seq<Method>, sig: Signature, i: nat): Option<Method>
    requires i <= |methods|
    decreases |methods| - i
  {
    if i == |methods| then None
    else if methods[i].signature == sig then Some(methods[i])
    else FindAnyIn(methods, sig, i + 1)
  }

  /** Resolves a reference to a method: looks it up like `Lookup`, but takes the first method of any kind. */
  function Find(layers: seq<Layer>, n: nat, sig: Signature): Option<Method>
    requires n <= |layers|
  {
    if n == 0 then None
    else match FindAnyIn(layers[n - 1].methods, sig, 0)
      case Some(m) => Some(m)
      case None => Find(layers, n - 1, sig)
  }

  lemma {:induction false} FindAnyInFinds(methods: seq<Method>, sig: Signature, i: nat)
    requires i <= |methods|
    ensures match FindAnyIn(methods, sig, i)
            case Some(m) => exists k :: i <= k < |methods| && methods[k] == m && m.signature == sig
            case None => forall k :: i <= k < |methods| ==> methods[k].signature != sig
    decreases |methods| - i
  {
    if i < |methods| && methods[i].signature != sig {
      FindAnyInFinds(methods, sig, i + 1);
    }
  }

  ghost predicate LayersOk(layers: seq<Layer>) {
    forall i :: 0 <= i < |layers| ==> DistinctSignatures(layers[i].methods)
  }

  lemma {:induction false} LookupSignature(layers: seq<Layer>, n: nat, sig: Signature)
    requires n <= |layers|
    ensures Lookup(layers, n, sig).Some? ==> Lookup(layers, n, sig).value.signature == sig && Lookup(layers, n, sig).value.IsVirtual()
  {
    if n > 0 {
      FindInFinds(layers[n - 1].methods, sig, 0);
      LookupSignature(layers, n - 1, sig);
    }
  }

  /** A reference resolves to the method that the table holds exactly unless it resolves to one that no table may hold. */
  lemma {:induction false} FindIsLookup(layers: seq<Layer>, n: nat, sig: Signature)
    requires n <= |layers| && LayersOk(layers)
    ensures Find(layers, n, sig) == Lookup(layers, n, sig) <==> (Find(layers, n, sig).Some? ==> Find(layers, n, sig).value.IsVirtual())
  {
    if n > 0 {
      var methods := layers[n - 1].methods;
      FindIsLookup(layers, n - 1, sig);
      FindInFinds(methods, sig, 0);
      FindAnyInFinds(methods, sig, 0);
      LookupSignature(layers, n, sig);
    }
  }

  // ---------------------------------------------------------------- building a table

  /** The slot of the method that `m` overrides, or the length of the table. */
  function SlotFor(table: seq<Method>, sig: Signature, j: nat): (k: nat)
    requires j <= |table|
    ensures j <= k <= |table| && (k < |table| ==> table[k].signature == sig)
    ensures forall i :: j <= i < k ==> table[i].signature != sig
    decreases |table| - j
  {
    if j == |table| || table[j].signature == sig then j else SlotFor(table, sig, j + 1)
  }

  /** One more method; in a class without superclass, `finalize` goes to slot 0, whatever stands there. */
  function Added(inherited: seq<Method>, table: seq<Method>, root: bool, m: Method): (r: seq<Method>)
    requires |inherited| <= |table|
    ensures |table| <= |r| <= |table| + 1
  {
    if !m.IsVirtual() then table
    else if root && m.signature == FINALIZE then
      if table == [] then table else table[0 := m]
    else
      var k := SlotFor(inherited, m.signature, 0);
      if k < |inherited| then table[k := m] else table + [m]
  }

  /** The inherited table after the first `n` methods of the class have been entered. */
  function Extended(inherited: seq<Method>, layer: Layer, n: nat): (r: seq<Method>)
    requires n <= |layer.methods|
    ensures |inherited| <= |r| <= |inherited| + n
  {
    if n == 0 then inherited else Added(inherited, Extended(inherited, layer, n - 1), layer.root, layer.methods[n - 1])
  }

  /** The table of the class of layer `n - 1`. */
  function TableOf(layers: seq<Layer>, n: nat): seq<Method>
    requires n <= |layers|
  {
    if n == 0 then [] else Extended(TableOf(layers, n - 1), layers[n - 1], |layers[n - 1].methods|)
  }

  // ---------------------------------------------------------------- tables agree with lookup

  /** A class without superclass that has a `finalize()V` which a table may hold. */
  ghost predicate RootFinalize(layer: Layer) {
    layer.root && exists m <- layer.methods :: m.IsVirtual() && m.signature == FINALIZE
  }

  ghost predicate NoRootFinalize(layers: seq<Layer>) {
    forall i :: 0 <= i < |layers| ==> !RootFinalize(layers[i])
  }

  /** Only in the first class of a chain is `finalize()V` treated apart. */
  ghost predicate LaterPlain(layers: seq<Layer>) {
    forall i :: 0 < i < |layers| ==> !RootFinalize(layers[i])
  }

  ghost predicate NoneTwice(table: seq<Method>) {
    forall i, j :: 0 <= i < j < |table| ==> table[i].signature != table[j].signature
  }

  /** A partly extended table: inherited slots keep their signatures, and a slot holds the class's own method if there is one. */
  ghost predicate Partly(inherited: seq<Method>, methods: seq<Method>, n: nat, table: seq<Method>)
    requires n <= |methods|
  {
    && |inherited| <= |table| && NoneTwice(table)
    && (forall j :: 0 <= j < |inherited| ==> table[j].signature == inherited[j].signature)
    && (forall j :: 0 <= j < |table| ==> (j < |inherited| && table[j] == inherited[j]) || (table[j] in methods[..n] && table[j].IsVirtual()))
    && (forall k :: 0 <= k < n && methods[k].IsVirtual() ==> methods[k] in table)
  }

  lemma InheritedIsPartly(inherited: seq<Method>, methods: seq<Method>)
    requires NoneTwice(inherited)
    ensures Partly(inherited, methods, 0, inherited)
  {
  }

  lemma AddedIsPartly(inherited: seq<Method>, layer: Layer, n: nat, table: seq<Method>)
    requires n < |layer.methods| && DistinctSignatures(layer.methods) && NoneTwice(inherited)
    requires !(layer.root && layer.methods[n].IsVirtual() && layer.methods[n].signature == FINALIZE)
    requires Partly(inherited, layer.methods, n, table)
    ensures Partly(inherited, layer.methods, n + 1, Added(inherited, table, layer.root, layer.methods[n]))
  {
    var m := layer.methods[n];
    var r := Added(inherited, table, layer.root, m);
    if m.IsVirtual() {
      var k := SlotFor(inherited, m.signature, 0);
      forall j | 0 <= j < |table| && j != k ensures table[j].signature != m.signature {
        if table[j] in layer.methods[..n] {
          var i :| 0 <= i < n && layer.methods[i] == table[j];
        }
      }
      var at := if k < |inherited| then k else |table|;
      assert r[at] == m;
      forall i | 0 <= i < n && layer.methods[i].IsVirtual() ensures layer.methods[i] in r {
        var j :| 0 <= j < |table| && table[j] == layer.methods[i];
        assert r[j] == table[j];
      }
    }
  }

  lemma FinalizeIsNotRoots(layer: Layer, n: nat)
    requires n < |layer.methods| && !RootFinalize(layer)
    ensures !(layer.root && layer.methods[n].IsVirtual() && layer.methods[n].signature == FINALIZE)
  {
    assert layer.methods[n] in layer.methods;
  }

  lemma {:induction false} ExtendedIsPartly(inherited: seq<Method>, layer: Layer, n: nat)
    requires n <= |layer.methods| && DistinctSignatures(layer.methods) && NoneTwice(inherited) && !RootFinalize(layer)
    ensures Partly(inherited, layer.methods, n, Extended(inherited, layer, n))
  {
    hide Partly, DistinctSignatures, RootFinalize, Added, NoneTwice;
    if n == 0 {
      InheritedIsPartly(inherited, layer.methods);
    } else {
      ExtendedIsPartly(inherited, layer, n - 1);
      FinalizeIsNotRoots(layer, n - 1);
      AddedIsPartly(inherited, layer, n - 1, Extended(inherited, layer, n - 1));
    }
  }

  /** The table of a class has no signature twice, and every slot holds what lookup finds for its signature. */
  ghost predicate SlotsAgree(layers: seq<Layer>, n: nat)
    requires n <= |layers|
  {
    var table := TableOf(layers, n);
    NoneTwice(table) && forall j :: 0 <= j < |table| ==> Lookup(layers, n, table[j].signature) == Some(table[j])
  }

  /** And whatever lookup finds has a slot. */
  ghost predicate Agrees(layers: seq<Layer>, n: nat)
    requires n <= |layers|
  {
    SlotsAgree(layers, n) && forall sig :: Lookup(layers, n, sig).Some? ==> Lookup(layers, n, sig).value in TableOf(layers, n)
  }

  lemma SlotAgrees(layers: seq<Layer>, n: nat, j: nat)
    requires 0 < n <= |layers| && LayersOk(layers) && SlotsAgree(layers, n - 1) && j < |TableOf(layers, n)|
    requires Partly(TableOf(layers, n - 1), layers[n - 1].methods, |layers[n - 1].methods|, TableOf(layers, n))
    ensures Lookup(layers, n, TableOf(layers, n)[j].signature) == Some(TableOf(layers, n)[j])
  {
    var inherited, methods, table := TableOf(layers, n - 1), layers[n - 1].methods, TableOf(layers, n);
    assert methods[..|methods|] == methods;
    if table[j] in methods && table[j].IsVirtual() {
      var k :| 0 <= k < |methods| && methods[k] == table[j];
      FindInFindsOnly(methods, k);
    } else {
      FindInFinds(methods, table[j].signature, 0);
    }
  }

  lemma LookupIsHeld(layers: seq<Layer>, n: nat, sig: Signature)
    requires 0 < n <= |layers| && LayersOk(layers) && Agrees(layers, n - 1) && Lookup(layers, n, sig).Some?
    requires Partly(TableOf(layers, n - 1), layers[n - 1].methods, |layers[n - 1].methods|, TableOf(layers, n))
    ensures Lookup(layers, n, sig).value in TableOf(layers, n)
  {
    var inherited, methods, table := TableOf(layers, n - 1), layers[n - 1].methods, TableOf(layers, n);
    assert methods[..|methods|] == methods;
    FindInFinds(methods, sig, 0);
    if FindIn(methods, sig, 0).Some? {
      var k :| 0 <= k < |methods| && methods[k] == FindIn(methods, sig, 0).value;
    } else {
      var m := Lookup(layers, n - 1, sig).value;
      var j :| 0 <= j < |inherited| && inherited[j] == m;
      assert Lookup(layers, n - 1, inherited[j].signature) == Some(m);
      LookupSignature(layers, n - 1, sig);
      assert table[j].signature == sig;
      assert table[j] == m;
    }
  }

  /** A table holds methods of the class among the first `n`, none twice. */
  ghost predicate OwnOnly(methods: seq<Method>, n: nat, table: seq<Method>)
    requires n <= |methods|
  {
    && (forall j :: 0 <= j < |table| ==> exists k :: 0 <= k < n && methods[k] == table[j])
    && (forall j :: 0 <= j < |table| ==> table[j].IsVirtual())
    && (forall i, j :: 0 <= i < j < |table| ==> table[i] != table[j])
  }

  lemma {:induction false} OnlyOwn(layer: Layer, n: nat)
    requires n <= |layer.methods| && DistinctSignatures(layer.methods)
    ensures OwnOnly(layer.methods, n, Extended([], layer, n))
  {
    if n > 0 {
      OnlyOwn(layer, n - 1);
      var m, before, table := layer.methods[n - 1], Extended([], layer, n - 1), Extended([], layer, n);
      forall j | 0 <= j < |before| ensures before[j] != m {
        var k :| 0 <= k < n - 1 && layer.methods[k] == before[j];
        assert layer.methods[k].signature != layer.methods[n - 1].signature;
      }
      assert table == Added([], before, layer.root, m);
      assert table == before || table == before + [m] || (before != [] && table == before[0 := m]);
    }
  }

  lemma RootSlotsAgree(layers: seq<Layer>)
    requires |layers| > 0 && DistinctSignatures(layers[0].methods)
    ensures SlotsAgree(layers, 1)
  {
    var methods, table := layers[0].methods, TableOf(layers, 1);
    assert TableOf(layers, 0) == [];
    OnlyOwn(layers[0], |methods|);
    forall j | 0 <= j < |table| ensures Lookup(layers, 1, table[j].signature) == Some(table[j]) {
      var k :| 0 <= k < |methods| && methods[k] == table[j];
      FindInFindsOnly(methods, k);
    }
    forall i, j | 0 <= i < j < |table| ensures table[i].signature != table[j].signature {
      assert Lookup(layers, 1, table[i].signature) == Some(table[i]) && Lookup(layers, 1, table[j].signature) == Some(table[j]);
    }
  }

  /** Every slot holds what lookup finds, whatever the first class declares. */
  lemma {:induction false} SlotsAlwaysAgree(layers: seq<Layer>, n: nat)
    requires n <= |layers| && LayersOk(layers) && LaterPlain(layers)
    ensures SlotsAgree(layers, n)
  {
    if n == 1 {
      RootSlotsAgree(layers);
    } else if n > 1 {
      SlotsAlwaysAgree(layers, n - 1);
      var layer, table := layers[n - 1], TableOf(layers, n);
      ExtendedIsPartly(TableOf(layers, n - 1), layer, |layer.methods|);
      forall j | 0 <= j < |table| ensures Lookup(layers, n, table[j].signature) == Some(table[j]) {
        SlotAgrees(layers, n, j);
      }
    }
  }

  /** And without a virtual `finalize()V` in the first class, whatever lookup finds has a slot. */
  lemma {:induction false} TableAgrees(layers: seq<Layer>, n: nat)
    requires n <= |layers| && LayersOk(layers) && LaterPlain(layers)
    ensures SlotsAgree(layers, n)
    ensures NoRootFinalize(layers) ==> Agrees(layers, n)
  {
    SlotsAlwaysAgree(layers, n);
    if n > 0 && NoRootFinalize(layers) {
      TableAgrees(layers, n - 1);
      var layer := layers[n - 1];
      ExtendedIsPartly(TableOf(layers, n - 1), layer, |layer.methods|);
      forall sig | Lookup(layers, n, sig).Some? ensures Lookup(layers, n, sig).value in TableOf(layers, n) {
        LookupIsHeld(layers, n, sig);
      }
    }
  }

  lemma {:induction false} ExtendedKeepsSlots(inherited: seq<Method>, layer: Layer, n: nat)
    requires n <= |layer.methods| && !RootFinalize(layer)
    ensures forall j :: 0 <= j < |inherited| ==> Extended(inherited, layer, n)[j].signature == inherited[j].signature
  {
    if n > 0 {
      ExtendedKeepsSlots(inherited, layer, n - 1);
      assert layer.methods[n - 1] in layer.methods;
    }
  }

  /**
   Inherited slots keep their numbers and signatures all the way down, whatever the first class declares: a
   `finalize()V` that is entered into slot 0 can only come before any slot is inherited.
   */
  lemma {:induction false} SlotsStay(layers: seq<Layer>, m: nat, n: nat)
    requires m <= n <= |layers| && LaterPlain(layers)
    ensures |TableOf(layers, m)| <= |TableOf(layers, n)|
    ensures forall j :: 0 <= j < |TableOf(layers, m)| ==> TableOf(layers, n)[j].signature == TableOf(layers, m)[j].signature
    decreases n
  {
    if 0 < m < n {
      SlotsStay(layers, m, n - 1);
      ExtendedKeepsSlots(TableOf(layers, n - 1), layers[n - 1], |layers[n - 1].methods|);
    }
  }

  /** Dispatch: the slot found in the class named by a call holds, in any subclass, the method that lookup finds from there. */
  lemma Dispatch(layers: seq<Layer>, m: nat, n: nat, j: nat)
    requires m <= n <= |layers| && LayersOk(layers) && LaterPlain(layers) && j < |TableOf(layers, m)|
    ensures j < |TableOf(layers, n)|
    ensures Lookup(layers, n, TableOf(layers, m)[j].signature) == Some(TableOf(layers, n)[j])
  {
    SlotsStay(layers, m, n);
    TableAgrees(layers, n);
  }

  // ---------------------------------------------------------------- a finalize method in the root class

  /** Which of the first `n` methods of a root class its table holds. */
  ghost predicate Complete(layer: Layer, n: nat, table: seq<Method>)
    requires n <= |layer.methods|
  {
    forall k :: 0 <= k < n && layer.methods[k].IsVirtual() ==> layer.methods[k] in table
  }

  /** In a class without superclass, `finalize()V` replaces whatever stands in slot 0, and nothing else. */
  lemma FinalizeGoesFirst(layer: Layer, n: nat)
    requires n < |layer.methods| && layer.root && !layer.methods[n].isStatic && !layer.methods[n].isPrivate
    requires layer.methods[n].signature == Signature("finalize", "()V")
    ensures var before, after := Extended([], layer, n), Extended([], layer, n + 1);
            && |after| == |before| && (before != [] ==> after[0] == layer.methods[n])
            && forall j :: 0 < j < |before| ==> after[j] == before[j]
  {
    assert "finalize"[0] != CONSTRUCTOR[0];
  }

  /** Once `finalize` has been entered, some method has been lost for good. */
  lemma {:induction false} FinalizeLosesOne(layer: Layer, n: nat, f: nat) returns (lost: nat)
    requires f < n <= |layer.methods| && DistinctSignatures(layer.methods)
    requires layer.root && layer.methods[f].IsVirtual() && layer.methods[f].signature == FINALIZE
    ensures lost < n && layer.methods[lost].IsVirtual() && layer.methods[lost] !in Extended([], layer, n)
    decreases n
  {
    OnlyOwn(layer, n - 1);
    var before := Extended([], layer, n - 1);
    if f < n - 1 {
      lost := FinalizeLosesOne(layer, n - 1, f);
      assert layer.methods[lost].signature != layer.methods[n - 1].signature;
    } else if before == [] {
      lost := f;
    } else {
      var k :| 0 <= k < n - 1 && layer.methods[k] == before[0];
      assert layer.methods[k].signature != layer.methods[n - 1].signature;
      lost := k;
    }
  }

  /** The table of a class without superclass has all its virtual methods exactly if none of them is `finalize()V`. */
  lemma RootTableComplete(layer: Layer)
    requires layer.root && DistinctSignatures(layer.methods)
    ensures Complete(layer, |layer.methods|, TableOf([layer], 1)) <==> !RootFinalize(layer)
  {
    assert TableOf([layer], 0) == [];
    if RootFinalize(layer) {
      var m :| m in layer.methods && m.IsVirtual() && m.signature == FINALIZE;
      var f :| 0 <= f < |layer.methods| && layer.methods[f] == m;
      var lost := FinalizeLosesOne(layer, |layer.methods|, f);
    } else {
      ExtendedIsPartly([], layer, |layer.methods|);
    }
  }

  /** Only the first class of a chain has no superclass. */
  ghost predicate RootFirst(layers: seq<Layer>) {
    forall i :: 0 < i < |layers| ==> !layers[i].root
  }

  /** For a whole chain: every class's table agrees with lookup exactly if the root has no virtual `finalize()V`. */
  lemma ChainAgreesExactly(layers: seq<Layer>)
    requires LayersOk(layers) && RootFirst(layers)
    ensures (forall n :: 0 <= n <= |layers| ==> Agrees(layers, n)) <==> NoRootFinalize(layers)
  {
    if NoRootFinalize(layers) {
      forall n | 0 <= n <= |layers| ensures Agrees(layers, n) {
        TableAgrees(layers, n);
      }
    } else {
      var layer := layers[0];
      var m :| m in layer.methods && m.IsVirtual() && m.signature == FINALIZE;
      var f :| 0 <= f < |layer.methods| && layer.methods[f] == m;
      var lost := FinalizeLosesOne(layer, |layer.methods|, f);
      FindInFindsOnly(layer.methods, lost);
      assert TableOf(layers, 0) == [];
      assert TableOf(layers, 1) == Extended([], layer, |layer.methods|);
      assert Lookup(layers, 1, layer.methods[lost].signature) == Some(layer.methods[lost]);
      assert !Agrees(layers, 1);
    }
  }

  /** A class without superclass whose only method is a virtual `finalize()V`: its table is empty. */
  method LosesFinalize() returns (layer: Layer)
    ensures RootFinalize(layer) && DistinctSignatures(layer.methods)
    ensures |layer.methods| == 1 && TableOf([layer], 1) == []
  {
    var m := new Method(FINALIZE, false, false);
    layer := Layer([m], true);
    assert m in layer.methods;
    assert TableOf([layer], 0) == [];
    assert Extended([], layer, 0) == [];
  }

  // ---------------------------------------------------------------- the algorithm

  lemma {:induction false} ExtendedFrom(inherited: seq<Method>, layer: Layer, n: nat)
    requires n <= |layer.methods|
    ensures forall m <- Extended(inherited, layer, n) :: m in inherited || (m in layer.methods[..n] && m.IsVirtual())
  {
    if n > 0 {
      ExtendedFrom(inherited, layer, n - 1);
      assert layer.methods[..n] == layer.methods[..n - 1] + [layer.methods[n - 1]];
    }
  }

  /** In a class without two methods of one signature, no method of its own takes the slot of another. */
  lemma {:induction false} OwnAreEntered(inherited: seq<Method>, layer: Layer, n: nat)
    requires n <= |layer.methods| && DistinctSignatures(layer.methods) && !RootFinalize(layer)
    ensures var table := Extended(inherited, layer, n);
            forall i :: 0 <= i < n && layer.methods[i].IsVirtual() ==>
              exists j :: 0 <= j < |table| && table[j] == layer.methods[i]
                          && (j < |inherited| ==> inherited[j].signature == table[j].signature)
  {
    if n > 0 {
      OwnAreEntered(inherited, layer, n - 1);
      FinalizeIsNotRoots(layer, n - 1);
      var m, before, table := layer.methods[n - 1], Extended(inherited, layer, n - 1), Extended(inherited, layer, n);
      forall i | 0 <= i < n && layer.methods[i].IsVirtual()
        ensures exists j :: 0 <= j < |table| && table[j] == layer.methods[i]
                            && (j < |inherited| ==> inherited[j].signature == table[j].signature)
      {
        if i < n - 1 {
          var j :| 0 <= j < |before| && before[j] == layer.methods[i]
                   && (j < |inherited| ==> inherited[j].signature == before[j].signature);
          assert layer.methods[i].signature != m.signature;
          assert table[j] == before[j];
        } else {
          var k := SlotFor(inherited, m.signature, 0);
          assert table[if k < |inherited| then k else |before|] == m;
        }
      }
    }
  }

  /** The first `index` slots of the array hold the table. */
  ghost predicate Laid(newTable: array<Method?>, index: nat, table: seq<Method>)
    reads newTable
  {
    index == |table| <= newTable.Length && forall j :: 0 <= j < index ==> newTable[j] == table[j]
  }

  lemma AddedHas(inherited: seq<Method>, table: seq<Method>, root: bool, m: Method)
    requires |inherited| <= |table|
    ensures forall x <- Added(inherited, table, root, m) :: x in table || x == m
  {
  }

  method FindSlot(table: seq<Method>, sig: Signature) returns (j: nat)
    ensures j == SlotFor(table, sig, 0)
  {
    j := 0;
    while j < |table| && table[j].signature != sig
      invariant j <= |table| && SlotFor(table, sig, j) == SlotFor(table, sig, 0)
    {
      j := j + 1;
    }
  }

  /** The first `index` entries, as a table of the right length. */
  method Taken(newTable: array<Method?>, index: nat, ghost goal: seq<Method>) returns (r: seq<Method>)
    requires Laid(newTable, index, goal)
    ensures r == goal
  {
    r := [];
    for j := 0 to index
      invariant r == goal[..j]
    {
      r := r + [newTable[j]];
    }
  }

  class LinkedClass {
    const superClassInfo: LinkedClass?
    const isInterface: bool
    const methods: seq<Method>
    var methodtable: Option<seq<Method>>
    /** The length of the superclass chain, which has no cycles. */
    ghost const depth: nat
    /** The classes whose tables are built on the way to this one's, and the methods they declare. */
    ghost const line: set<LinkedClass>
    ghost const declared: set<Method>

    /** The superclass whose table is inherited: one of the same kind, class or interface. */
    function Parent(): LinkedClass? {
      if superClassInfo != null && superClassInfo.isInterface == isInterface then superClassInfo else null
    }

    ghost predicate Grounded()
      decreases depth
    {
      && (forall c <- line :: c.depth <= depth)
      && line == {this} + (if Parent() == null then {} else Parent().line)
      && declared == Elements(methods) + (if Parent() == null then {} else Parent().declared)
      && (Parent() != null ==> Parent().depth < depth && Parent().Grounded())
    }

    constructor (superClassInfo: LinkedClass?, isInterface: bool, methods: seq<Method>)
      requires superClassInfo != null ==> superClassInfo.Grounded()
      ensures this.superClassInfo == superClassInfo && this.isInterface == isInterface && this.methods == methods
      ensures methodtable == None && Grounded()
    {
      this.superClassInfo, this.isInterface, this.methods := superClassInfo, isInterface, methods;
      methodtable := None;
      depth := if superClassInfo == null then 0 else superClassInfo.depth + 1;
      var parent := if superClassInfo != null && superClassInfo.isInterface == isInterface then superClassInfo else null;
      line := {this} + if parent == null then {} else parent.line;
      declared := Elements(methods) + if parent == null then {} else parent.declared;
    }

    ghost function OwnLayer(): Layer {
      Layer(methods, superClassInfo == null)
    }

    ghost function Layers(): (r: seq<Layer>)
      requires Grounded()
      ensures r != [] && r[|r| - 1] == OwnLayer()
      decreases depth
    {
      (if Parent() == null then [] else Parent().Layers()) + [OwnLayer()]
    }

    /** The table that this class should have. */
    ghost function Table(): (r: seq<Method>)
      requires Grounded()
      ensures Elements(r) <= declared
      decreases depth
    {
      ExtendedFrom(Inherited(), OwnLayer(), |methods|);
      Extended(Inherited(), OwnLayer(), |methods|)
    }

    ghost function Inherited(): (r: seq<Method>)
      requires Grounded()
      ensures Elements(r) <= declared
      decreases depth, 0
    {
      if Parent() == null then [] else Parent().Table()
    }

    /** No method object is listed twice. */
    ghost predicate OwnMethods()
      requires Grounded()
      decreases depth
    {
      && (Parent() != null ==> Parent().OwnMethods() && forall m <- methods :: m !in Parent().declared)
      && forall i, j :: 0 <= i < j < |methods| ==> methods[i] != methods[j]
    }

    /** The methods of the table know their slots. */
    ghost predicate Numbered(table: seq<Method>)
      reads Elements(table)`methodTableIndex
    {
      forall j :: 0 <= j < |table| ==> table[j].methodTableIndex == j
    }

    /** The tables that have been built are right. */
    ghost predicate Built()
      requires Grounded()
      reads line`methodtable, declared`methodTableIndex
      decreases depth
    {
      && (Parent() != null ==> Parent().Built())
      && (methodtable != None ==> methodtable.value == Table() && Numbered(Table()))
    }

    /** Enters one method, if a table may hold it. */
    method EnterMethod(m: Method, table: seq<Method>, newTable: array<Method?>, index: nat, ghost sofar: seq<Method>) returns (next: nat)
      requires Laid(newTable, index, sofar) && |table| <= index < newTable.Length && m !in sofar && Numbered(sofar)
      modifies newTable, m`methodTableIndex
      ensures Laid(newTable, next, Added(table, sofar, superClassInfo == null, m)) && index <= next <= index + 1
      ensures Numbered(Added(table, sofar, superClassInfo == null, m))
      ensures !m.IsVirtual() ==> m.methodTableIndex == old(m.methodTableIndex)
    {
      if m.isStatic || m.isPrivate {
        return index;
      }
      if m.signature.name == CONSTRUCTOR {
        return index;
      }
      if superClassInfo == null && m.signature == FINALIZE {
        newTable[0] := m;
        m.methodTableIndex := 0;
        return index;
      }
      var j := FindSlot(table, m.signature);
      if j < |table| {
        newTable[j] := m;
        m.methodTableIndex := j;
        next := index;
      } else {
        newTable[index] := m;
        m.methodTableIndex := index;
        next := index + 1;
      }
    }

    /** Enters this class's methods into a copy of the inherited table. */
    method LayOut(table: seq<Method>) returns (methodTable: seq<Method>)
      requires Numbered(table) && (forall m <- methods :: m !in table)
      requires forall i, j :: 0 <= i < j < |methods| ==> methods[i] != methods[j]
      modifies Elements(methods)`methodTableIndex
      ensures methodTable == Extended(table, OwnLayer(), |methods|) && Numbered(methodTable)
      ensures forall m <- methods :: !m.IsVirtual() ==> m.methodTableIndex == old(m.methodTableIndex)
    {
      hide Added;
      var newTable := new Method?[|table| + |methods|](_ => null);
      forall j | 0 <= j < |table| {
        newTable[j] := table[j];
      }
      var index := |table|;
      ghost var sofar := table;
      for i := 0 to |methods|
        invariant sofar == Extended(table, OwnLayer(), i) && |table| <= index <= |table| + i
        invariant Laid(newTable, index, sofar) && Numbered(sofar)
        invariant forall k :: i <= k < |methods| ==> methods[k] !in sofar
        invariant forall m <- methods :: !m.IsVirtual() ==> m.methodTableIndex == old(m.methodTableIndex)
      {
        AddedHas(table, sofar, superClassInfo == null, methods[i]);
        ghost var next := Added(table, sofar, superClassInfo == null, methods[i]);
        index := EnterMethod(methods[i], table, newTable, index, sofar);
        sofar := next;
      }
      methodTable := Taken(newTable, index, sofar);
    }

    method LayOutBelow(parent: LinkedClass) returns (methodTable: seq<Method>)
      requires Grounded() && OwnMethods() && parent == Parent() && parent.Built() && parent.methodtable != None
      modifies Elements(methods)`methodTableIndex
      ensures parent.Built() && methodTable == Table() && Numbered(methodTable)
      ensures forall m <- methods :: !m.IsVirtual() ==> m.methodTableIndex == old(m.methodTableIndex)
    {
      assert Elements(methods) !! parent.declared && Elements(parent.Table()) <= parent.declared;
      methodTable := LayOut(parent.methodtable.value);
    }

    /** A table holds only methods that it may hold. */
    lemma {:induction false} TableIsVirtual()
      requires Grounded()
      ensures forall m <- Table() :: m.IsVirtual()
      decreases depth
    {
      if Parent() != null {
        Parent().TableIsVirtual();
      }
      ExtendedFrom(Inherited(), OwnLayer(), |methods|);
    }

    lemma OwnAreInTable()
      requires Grounded()
      ensures DistinctSignatures(methods) && !RootFinalize(OwnLayer()) ==> forall m <- methods :: m.IsVirtual() ==> m in Table()
    {
      if DistinctSignatures(methods) && !RootFinalize(OwnLayer()) {
        OwnAreEntered(Inherited(), OwnLayer(), |methods|);
        forall m <- methods | m.IsVirtual() ensures m in Table() {
          var i :| 0 <= i < |methods| && methods[i] == m;
        }
      }
    }

    lemma EntersOwn()
      requires Grounded()
      ensures DistinctSignatures(methods)
              && !(superClassInfo == null && exists m <- methods ::
                     !m.isStatic && !m.isPrivate && m.signature == Signature("finalize", "()V")) ==>
                forall m <- methods :: !m.isStatic && !m.isPrivate && m.signature.name != "<init>" ==> m in Table()
    {
      OwnAreInTable();
    }

    /** Builds the tables of the superclasses of the same kind, then this class's own. */
    method BuildMethodtable()
      requires Grounded() && OwnMethods() && Built()
      modifies line`methodtable, declared`methodTableIndex
      ensures Built() && methodtable == Some(Table())
      ensures forall m <- methodtable.value :: !m.isStatic && !m.isPrivate && m.signature.name != "<init>"
      ensures DistinctSignatures(methods)
              && !(superClassInfo == null && exists m <- methods ::
                     !m.isStatic && !m.isPrivate && m.signature == Signature("finalize", "()V")) ==>
                forall m <- methods :: !m.isStatic && !m.isPrivate && m.signature.name != "<init>" ==> m in methodtable.value
      ensures forall m <- declared :: m.isStatic || m.isPrivate || m.signature.name == "<init>" ==>
                m.methodTableIndex == old(m.methodTableIndex)
      decreases depth
    {
      hide Extended, RootFinalize, DistinctSignatures;
      TableIsVirtual();
      EntersOwn();
      if methodtable != None {
        return;
      }
      var parent := Parent();
      if parent == null {
        var methodTable := LayOut([]);
        methodtable := Some(methodTable);
      } else {
        parent.BuildMethodtable();
        var methodTable := LayOutBelow(parent);
        assert this !in parent.line;
        methodtable := Some(methodTable);
      }
    }
  }

  lemma {:induction false} TableOfPrefix(layers: seq<Layer>, more: seq<Layer>, n: nat)
    requires n <= |layers|
    ensures TableOf(layers + more, n) == TableOf(layers, n)
  {
    if n > 0 {
      TableOfPrefix(layers, more, n - 1);
    }
  }

  /** The table that is built is the table of the class's layers. */
  lemma {:induction false} TableOfLayers(c: LinkedClass)
    requires c.Grounded()
    ensures c.Table() == TableOf(c.Layers(), |c.Layers()|)
    decreases c.depth
  {
    var layers := c.Layers();
    if c.Parent() != null {
      TableOfLayers(c.Parent());
      TableOfPrefix(c.Parent().Layers(), [c.OwnLayer()], |c.Parent().Layers()|);
    }
    assert TableOf(layers, |layers|) == Extended(TableOf(layers, |layers| - 1), layers[|layers| - 1], |c.methods|);
  }

  /** In a class's chain only the first class can be without superclass. */
  lemma {:induction false} ChainHasRootFirst(c: LinkedClass)
    requires c.Grounded()
    ensures RootFirst(c.Layers())
    decreases c.depth
  {
    if c.Parent() != null {
      ChainHasRootFirst(c.Parent());
    }
  }

  lemma {:induction false} LookupPrefix(layers: seq<Layer>, more: seq<Layer>, n: nat, sig: Signature)
    requires n <= |layers|
    ensures Lookup(layers + more, n, sig) == Lookup(layers, n, sig)
  {
    if n > 0 {
      LookupPrefix(layers, more, n - 1, sig);
    }
  }

  lemma AgreesPrefix(layers: seq<Layer>, more: seq<Layer>, n: nat)
    requires n <= |layers|
    ensures Agrees(layers + more, n) <==> Agrees(layers, n)
  {
    TableOfPrefix(layers, more, n);
    forall sig ensures Lookup(layers + more, n, sig) == Lookup(layers, n, sig) {
      LookupPrefix(layers, more, n, sig);
    }
    hide TableOf, Lookup;
  }

  /** The classes on the way to a class have the beginnings of its chain as theirs. */
  lemma {:induction false} LineHasPrefixes(c: LinkedClass)
    requires c.Grounded()
    ensures forall d <- c.line :: d.Grounded() && d.Layers() <= c.Layers()
    decreases c.depth
  {
    if c.Parent() != null {
      LineHasPrefixes(c.Parent());
      assert c.Layers() == c.Parent().Layers() + [c.OwnLayer()];
    } else {
      assert c.line == {c};
    }
  }

  /** And every beginning is that of one of them. */
  lemma {:induction false} ClassOfLayer(c: LinkedClass, n: nat) returns (d: LinkedClass)
    requires c.Grounded() && 0 < n <= |c.Layers()|
    ensures d in c.line && d.Grounded() && |d.Layers()| == n
    decreases c.depth
  {
    if n == |c.Layers()| {
      d := c;
    } else {
      d := ClassOfLayer(c.Parent(), n);
    }
  }

  /** The table that a class should have holds exactly what lookup along its chain finds. */
  ghost predicate TableIsRight(c: LinkedClass)
    requires c.Grounded()
  {
    var table, layers := c.Table(), c.Layers();
    && NoneTwice(table)
    && (forall j :: 0 <= j < |table| ==> Lookup(layers, |layers|, table[j].signature) == Some(table[j]))
    && (forall sig :: Lookup(layers, |layers|, sig).Some? ==> Lookup(layers, |layers|, sig).value in table)
  }

  lemma RightIsAgrees(c: LinkedClass, layers: seq<Layer>)
    requires c.Grounded() && c.Layers() <= layers
    ensures TableIsRight(c) <==> Agrees(layers, |c.Layers()|)
  {
    var n := |c.Layers()|;
    TableOfLayers(c);
    AgreesPrefix(c.Layers(), layers[n..], n);
    assert layers == c.Layers() + layers[n..];
    hide TableOf, Lookup, NoneTwice;
  }

  lemma RightTablesAgree(c: LinkedClass, n: nat)
    requires c.Grounded() && n <= |c.Layers()| && forall d <- c.line :: d.Grounded() && TableIsRight(d)
    ensures Agrees(c.Layers(), n)
  {
    if n > 0 {
      hide TableIsRight, Agrees;
      LineHasPrefixes(c);
      var d := ClassOfLayer(c, n);
      RightIsAgrees(d, c.Layers());
    }
  }

  lemma AgreeingTablesAreRight(c: LinkedClass, d: LinkedClass)
    requires c.Grounded() && d in c.line && forall n :: 0 <= n <= |c.Layers()| ==> Agrees(c.Layers(), n)
    ensures d.Grounded() && TableIsRight(d)
  {
    hide TableIsRight, Agrees;
    LineHasPrefixes(c);
    RightIsAgrees(d, c.Layers());
  }

  /** For classes: the tables on the way to a class, its own included, are right exactly if its root has no virtual `finalize()V`. */
  lemma ClassTablesAgreeExactly(c: LinkedClass)
    requires c.Grounded() && LayersOk(c.Layers())
    ensures (forall d <- c.line :: d.Grounded() && TableIsRight(d)) <==> NoRootFinalize(c.Layers())
  {
    hide *;
    ChainHasRootFirst(c);
    ChainAgreesExactly(c.Layers());
    if NoRootFinalize(c.Layers()) {
      forall d <- c.line ensures d.Grounded() && TableIsRight(d) {
        AgreeingTablesAreRight(c, d);
      }
    } else if forall d <- c.line :: d.Grounded() && TableIsRight(d) {
      forall n | 0 <= n <= |c.Layers()| ensures Agrees(c.Layers(), n) {
        RightTablesAgree(c, n);
      }
    }
  }

  /**
   Once built, a class's table has no signature twice, every slot holds what lookup along the chain finds and its
   method knows it, and without a virtual `finalize()V` in the root whatever lookup finds has a slot.
   */
  lemma BuiltTableAgrees(c: LinkedClass)
    requires c.Grounded() && c.Built() && c.methodtable != None && LayersOk(c.Layers())
    ensures var table, layers := c.methodtable.value, c.Layers();
            && NoneTwice(table)
            && (forall j :: 0 <= j < |table| ==> Lookup(layers, |layers|, table[j].signature) == Some(table[j]) && table[j].methodTableIndex == j)
            && (NoRootFinalize(layers) ==>
                  forall sig :: Lookup(layers, |layers|, sig).Some? ==> Lookup(layers, |layers|, sig).value in table)
  {
    TableOfLayers(c);
    ChainHasRootFirst(c);
    TableAgrees(c.Layers(), |c.Layers()|);
  }
}
