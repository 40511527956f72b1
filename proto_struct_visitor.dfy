/** The draft accessors of the proto prototype. Its `Extractor`, `get`, `fieldCount`, `getName` and
    visitor-first `applyForEach` do what the ones of `StructVisitor` do; what is its own is the
    visitor-last `applyForEach(t1, t2, visitor)` and the draft equality `eql1`. */
module ProtoStructVisitor {
  import opened Wrappers
  import opened Types
  import opened Visiting
  import opened Values
  import opened StructVisitor
  import opened TestTypes

  /** `applyForEach(t1, t2, visitor)`: the visitor-first `applyForEach` with the arguments moved. */
  function ApplyForEachPair<S>(reg: Registry, t: TypeId, a: Value, b: Value, visitor: (S, string, seq<Value>) -> S, s: S): (r: S)
    requires WellFormed(reg) && t in reg.structs && |Traversal(reg, t)| >= 1
    requires HasType(reg, a, RecordT(t)) && HasType(reg, b, RecordT(t))
    ensures r == ForEach(Traversal(reg, t), LockStep(visitor, [a, b]), s)
  {
    ApplyForEachIsFold(reg, t, visitor, [a, b], s);
    ApplyForEach(reg, t, visitor, [a, b], s, 0)
  }

  /** `val1 == val2` on one field pair of two objects. A C array decays to a pointer to its first
      element, so two C-array fields are equal only when they are the same array, that is when the
      two objects are one object. A `std::array` compares its elements with `==`; a nested record
      uses its `operator==`, value equality for the test records; scalars compare by value. */
  predicate FieldEq(ty: FieldType, x: Value, y: Value, sameObject: bool)
    decreases ty
  {
    match ty
    case CArrayT(_, _) => sameObject
    case StdArrayT(e, _) =>
      x.ArrayV? && y.ArrayV? && |x.elems| == |y.elems| &&
      forall k :: 0 <= k < |x.elems| ==> FieldEq(e, x.elems[k], y.elems[k], sameObject)
    case _ => x == y
  }

  /** Every visited slot is present in the slot map. */
  predicate SlotsPresent(m: map<Slot, Value>, vs: seq<Visit>) {
    forall k :: 0 <= k < |vs| ==> vs[k].Slot() in m
  }

  /** A value of a record type holds every slot its traversal visits. */
  lemma RecordSlotsPresent(reg: Registry, t: TypeId, a: Value)
    requires WellFormed(reg) && t in reg.structs && HasType(reg, a, RecordT(t))
    ensures a.RecordV? && SlotsPresent(a.slots, Traversal(reg, t))
  {
    var vs := Traversal(reg, t);
    forall k | 0 <= k < |vs| ensures vs[k].Slot() in a.slots {
      assert vs[k] in vs;
    }
  }

  /** `val1 == val2` holds for the first `n` visited field pairs. */
  predicate FieldPairsEq(vs: seq<Visit>, m1: map<Slot, Value>, m2: map<Slot, Value>, sameObject: bool, n: nat)
    requires SlotsPresent(m1, vs) && SlotsPresent(m2, vs) && n <= |vs|
  {
    forall j :: 0 <= j < n ==> FieldEq(vs[j].ty, m1[vs[j].Slot()], m2[vs[j].Slot()], sameObject)
  }

  lemma FieldPairsEqStep(vs: seq<Visit>, m1: map<Slot, Value>, m2: map<Slot, Value>, sameObject: bool, n: nat)
    requires SlotsPresent(m1, vs) && SlotsPresent(m2, vs) && n < |vs|
    ensures FieldPairsEq(vs, m1, m2, sameObject, n + 1) ==
      (FieldPairsEq(vs, m1, m2, sameObject, n) && FieldEq(vs[n].ty, m1[vs[n].Slot()], m2[vs[n].Slot()], sameObject))
  {
  }

  /** What `eql1(t1, t2)` returns for two objects with contents `a` and `b`: `val1 == val2` holds
      for every field pair. */
  predicate Eql1Holds(reg: Registry, t: TypeId, a: Value, b: Value, sameObject: bool)
    requires WellFormed(reg) && t in reg.structs
    requires HasType(reg, a, RecordT(t)) && HasType(reg, b, RecordT(t))
  {
    RecordSlotsPresent(reg, t, a);
    RecordSlotsPresent(reg, t, b);
    FieldPairsEq(Traversal(reg, t), a.slots, b.slots, sameObject, |Traversal(reg, t)|)
  }

  /** `eql1(t1, t2)`: `eq` starts true and the visitor takes `eq && val1 == val2` for each field
      pair in traversal order. */
  method Eql1(reg: Registry, t1: Instance, t2: Instance) returns (eq: bool)
    requires WellFormed(reg) && t1.ty in reg.structs && t2.ty == t1.ty && |Traversal(reg, t1.ty)| >= 1
    requires t1.Valid(reg) && t2.Valid(reg)
    ensures eq == Eql1Holds(reg, t1.ty, t1.Contents(), t2.Contents(), t1 == t2)
  {
    var calls := Traversal(reg, t1.ty);
    var m1, m2, same := t1.slots, t2.slots, t1 == t2;
    RecordSlotsPresent(reg, t1.ty, t1.Contents());
    RecordSlotsPresent(reg, t1.ty, t2.Contents());
    eq := true;
    for k := 0 to |calls|
      invariant eq == FieldPairsEq(calls, m1, m2, same, k)
    {
      FieldPairsEqStep(calls, m1, m2, same, k);
      eq := eq && FieldEq(calls[k].ty, m1[calls[k].Slot()], m2[calls[k].Slot()], same);
    }
  }

  /** A field type with no C array anywhere in it. */
  predicate NoCArray(ty: FieldType) {
    match ty
    case CArrayT(_, _) => false
    case StdArrayT(e, _) => NoCArray(e)
    case _ => true
  }

  /** On an object compared with itself every field pair is equal, C arrays included. */
  lemma {:induction false} FieldEqSameObject(reg: Registry, ty: FieldType, x: Value)
    requires WellFormed(reg) && HasType(reg, x, ty)
    ensures FieldEq(ty, x, x, true)
    decreases ty
  {
    if ty.StdArrayT? {
      forall k | 0 <= k < |x.elems| ensures FieldEq(ty.elem, x.elems[k], x.elems[k], true) {
        FieldEqSameObject(reg, ty.elem, x.elems[k]);
      }
    }
  }

  /** On a field with no C array, `val1 == val2` is value equality, whichever objects hold it. */
  lemma {:induction false} FieldEqIsEquality(reg: Registry, ty: FieldType, x: Value, y: Value, sameObject: bool)
    requires WellFormed(reg) && NoCArray(ty) && HasType(reg, x, ty) && HasType(reg, y, ty)
    ensures FieldEq(ty, x, y, sameObject) <==> x == y
    decreases ty
  {
    if ty.StdArrayT? {
      forall k | 0 <= k < |x.elems|
        ensures FieldEq(ty.elem, x.elems[k], y.elems[k], sameObject) <==> x.elems[k] == y.elems[k]
      {
        FieldEqIsEquality(reg, ty.elem, x.elems[k], y.elems[k], sameObject);
      }
      if FieldEq(ty, x, y, sameObject) {
        assert x.elems == y.elems;
      }
    }
  }

  /** The two slot maps hold equal values at every visited slot. */
  predicate AgreeOnVisits(m1: map<Slot, Value>, m2: map<Slot, Value>, vs: seq<Visit>) {
    forall k :: 0 <= k < |vs| ==> vs[k].Slot() in m1 && vs[k].Slot() in m2 && m1[vs[k].Slot()] == m2[vs[k].Slot()]
  }

  /** Two values of a record type are equal exactly when they agree on every visited slot. */
  lemma SlotwiseEquality(reg: Registry, t: TypeId, a: Value, b: Value)
    requires WellFormed(reg) && t in reg.structs
    requires HasType(reg, a, RecordT(t)) && HasType(reg, b, RecordT(t))
    ensures AgreeOnVisits(a.slots, b.slots, Traversal(reg, t)) <==> a == b
  {
    var vs := Traversal(reg, t);
    assert a.slots.Keys == (set v | v in vs :: v.Slot()) && b.slots.Keys == a.slots.Keys;
    if AgreeOnVisits(a.slots, b.slots, vs) {
      forall s | s in a.slots ensures a.slots[s] == b.slots[s] {
        var k :| 0 <= k < |vs| && vs[k].Slot() == s;
      }
      assert a.slots == b.slots;
    }
  }

  /** `eql1` of an object with itself is true. */
  lemma Eql1SameObject(reg: Registry, t: TypeId, a: Value)
    requires WellFormed(reg) && t in reg.structs && HasType(reg, a, RecordT(t))
    ensures Eql1Holds(reg, t, a, a, true)
  {
    var vs := Traversal(reg, t);
    forall k | 0 <= k < |vs| ensures FieldEq(vs[k].ty, a.slots[vs[k].Slot()], a.slots[vs[k].Slot()], true) {
      assert vs[k] in vs;
      FieldEqSameObject(reg, vs[k].ty, a.slots[vs[k].Slot()]);
    }
  }

  /** For a type without C arrays `eql1` decides value equality. */
  lemma Eql1WithoutCArrays(reg: Registry, t: TypeId, a: Value, b: Value, sameObject: bool)
    requires WellFormed(reg) && t in reg.structs
    requires forall k :: 0 <= k < |Traversal(reg, t)| ==> NoCArray(Traversal(reg, t)[k].ty)
    requires HasType(reg, a, RecordT(t)) && HasType(reg, b, RecordT(t))
    ensures Eql1Holds(reg, t, a, b, sameObject) <==> a == b
  {
    var vs := Traversal(reg, t);
    forall k | 0 <= k < |vs|
      ensures FieldEq(vs[k].ty, a.slots[vs[k].Slot()], b.slots[vs[k].Slot()], sameObject)
          <==> a.slots[vs[k].Slot()] == b.slots[vs[k].Slot()]
    {
      FieldEqIsEquality(reg, vs[k].ty, a.slots[vs[k].Slot()], b.slots[vs[k].Slot()], sameObject);
    }
    SlotwiseEquality(reg, t, a, b);
    assert Eql1Holds(reg, t, a, b, sameObject) <==> AgreeOnVisits(a.slots, b.slots, vs);
  }

  /** For a type with a C-array field `eql1` of two distinct objects is false, whatever they hold. */
  lemma Eql1DistinctObjects(reg: Registry, t: TypeId, a: Value, b: Value)
    requires WellFormed(reg) && t in reg.structs && HasCArrayField(reg, t)
    requires HasType(reg, a, RecordT(t)) && HasType(reg, b, RecordT(t))
    ensures !Eql1Holds(reg, t, a, b, false)
  {
    var k :| 0 <= k < |Traversal(reg, t)| && Traversal(reg, t)[k].ty.CArrayT?;
  }

  /** Two distinct `Wrapper` objects holding the same value: `eql1` says they differ. */
  lemma Eql1MissesEqualWrappers(reg: Registry)
    requires WellFormed(reg) && StructTables(reg)
    ensures var b := BasicsValue(true, 1, 2.5);
            var w := WrapperValue(9, -2.2, b, [b, b, b], [b, b]);
            HasType(reg, w, RecordT(Wrapper)) && !Eql1Holds(reg, Wrapper, w, w, false)
  {
    var b := BasicsValue(true, 1, 2.5);
    BasicsValueHasType(reg, true, 1, 2.5);
    var w := WrapperValue(9, -2.2, b, [b, b, b], [b, b]);
    WrapperValueHasType(reg, 9, -2.2, b, [b, b, b], [b, b]);
    WrapperHasCArrayField(reg);
    Eql1DistinctObjects(reg, Wrapper, w, w);
  }

  /** The tuple-like access test: `get<2>(b)` on `Basics b{true, 1, 1.5}` refers to `b.d`, so
      `r += 3` through that reference leaves `b.d == 4.5` and the other fields as they were. */
  method GetThenAdd(reg: Registry) returns (b: Instance)
    requires WellFormed(reg) && StructTables(reg)
    ensures b.ty == Basics && b.Contents() == BasicsValue(true, 1, 4.5)
  {
    BasicsTraversal(reg);
    b := new Instance(Basics, BasicsValue(true, 1, 1.5).slots);
    var r := Get(reg, b, false, 2);
    assert r == Ok(FieldRef((Basics, "d"), DoubleT, false));
    var d := b.Read(r.value);
    b.Assign(r.value, DoubleV(d.d + 3.0));
  }

  lemma WrapperHasCArrayField(reg: Registry)
    requires WellFormed(reg) && StructTables(reg)
    ensures Wrapper in reg.structs && HasCArrayField(reg, Wrapper)
  {
    WrapperTraversal(reg);
    assert Traversal(reg, Wrapper)[3].ty.CArrayT?;
  }

  /** Equality as `eql1` evidently means it: every field pair compared by value, C arrays element
      by element. */
  method Eql(reg: Registry, t1: Instance, t2: Instance) returns (eq: bool)
    requires WellFormed(reg) && t1.ty in reg.structs && t2.ty == t1.ty && |Traversal(reg, t1.ty)| >= 1
    requires t1.Valid(reg) && t2.Valid(reg)
    ensures eq <==> t1.Contents() == t2.Contents()
  {
    var calls := Traversal(reg, t1.ty);
    var m1, m2 := t1.slots, t2.slots;
    RecordSlotsPresent(reg, t1.ty, t1.Contents());
    RecordSlotsPresent(reg, t1.ty, t2.Contents());
    eq := true;
    for k := 0 to |calls|
      invariant eq == AgreeOnVisits(m1, m2, calls[..k])
    {
      AgreeOnVisitsStep(m1, m2, calls, k);
      eq := eq && m1[calls[k].Slot()] == m2[calls[k].Slot()];
    }
    assert calls[..|calls|] == calls;
    SlotwiseEquality(reg, t1.ty, t1.Contents(), t2.Contents());
  }

  lemma AgreeOnVisitsStep(m1: map<Slot, Value>, m2: map<Slot, Value>, vs: seq<Visit>, n: nat)
    requires SlotsPresent(m1, vs) && SlotsPresent(m2, vs) && n < |vs|
    ensures AgreeOnVisits(m1, m2, vs[..n + 1]) == (AgreeOnVisits(m1, m2, vs[..n]) && m1[vs[n].Slot()] == m2[vs[n].Slot()])
  {
    assert forall j :: 0 <= j < n ==> vs[..n + 1][j] == vs[..n][j] == vs[j];
    assert vs[..n + 1][n] == vs[n];
  }
}
