/** The generated record tables of the test types: `BasicClass`, `ChildClass`,
    `SecondLevelChildClass` and `ChildOfUnreflectedBaseClass` as the generator emitted them, and the
    `Empty`, `Basics` and `Wrapper` records the visitor tests use (`Wrapper` has the shape of
    `NestingStruct`: two scalars, a nested `Basics`, a C array of three and a `std::array` of two). */
module TestTypes {
  import opened Types
  import opened Visiting
  import opened Values

  const BasicClass: TypeId := "BasicClass"
  const ChildClass: TypeId := "ChildClass"
  const SecondLevelChildClass: TypeId := "SecondLevelChildClass"
  const ChildOfUnreflectedBaseClass: TypeId := "ChildOfUnreflectedBaseClass"
  const Empty: TypeId := "Empty"
  const Basics: TypeId := "Basics"
  const Wrapper: TypeId := "Wrapper"
  const Unscoped: TypeId := "Unscoped"
  const Scoped: TypeId := "Scoped"

  const BasicsFields: seq<ClassMember> := [ClassMember("b", BoolT), ClassMember("i", IntT), ClassMember("d", DoubleT)]

  const WrapperFields: seq<ClassMember> := [
    ClassMember("i", IntT),
    ClassMember("d", DoubleT),
    ClassMember("b", RecordT(Basics)),
    ClassMember("basicsArr", CArrayT(RecordT(Basics), 3)),
    ClassMember("basicsStdarr", StdArrayT(RecordT(Basics), 2))
  ]

  /** All the tables of the test types; `ChildOfUnreflectedBaseClass` lists no base because its
      base is not annotated, and protected and private fields appear nowhere. */
  function TestRegistry(): Registry {
    Registry(
      map[
        BasicClass := MetaStruct(BasicsFields, [], 0),
        ChildClass := MetaStruct([ClassMember("publicField", IntT)], [BasicClass], 1),
        SecondLevelChildClass := MetaStruct([ClassMember("someField", DoubleT)], [ChildClass], 2),
        ChildOfUnreflectedBaseClass := MetaStruct([ClassMember("childField", IntT)], [], 0),
        Empty := MetaStruct([], [], 0),
        Basics := MetaStruct(BasicsFields, [], 0),
        Wrapper := MetaStruct(WrapperFields, [], 1)
      ],
      {Unscoped, Scoped})
  }

  lemma TestRegistryWellFormed()
    ensures WellFormed(TestRegistry())
  {
    var reg := TestRegistry();
    TestRegistryClassTables();
    TestRegistryStructTables();
    TestRegistryDomain();
    forall t | t in reg.structs ensures EntryWellFormed(reg, t) {
      if t == Wrapper { WrapperWellFormed(reg); }
      if t == ChildClass { ChildClassWellFormed(reg); }
      if t == SecondLevelChildClass { SecondLevelChildClassWellFormed(reg); }
      if t == BasicClass || t == ChildOfUnreflectedBaseClass || t == Empty || t == Basics {
        ScalarEntryWellFormed(reg, t);
      }
    }
  }

  /** The condition `WellFormed` puts on the entry of `t`. */
  predicate EntryWellFormed(reg: Registry, t: TypeId)
    requires t in reg.structs
  {
    (forall b :: b in reg.structs[t].baseClasses ==> b in reg.structs && reg.structs[b].depth < reg.structs[t].depth) &&
    (forall m :: m in reg.structs[t].publicFields ==> RecordsBelow(reg, m.ty, reg.structs[t].depth))
  }

  /** One of the seven reflected test records. */
  predicate TestTypeId(t: TypeId) {
    t == BasicClass || t == ChildClass || t == SecondLevelChildClass || t == ChildOfUnreflectedBaseClass ||
    t == Empty || t == Basics || t == Wrapper
  }

  lemma TestRegistryDomain()
    ensures forall t :: t in TestRegistry().structs ==> TestTypeId(t)
  {
  }

  lemma WrapperWellFormed(reg: Registry)
    requires StructTables(reg)
    ensures EntryWellFormed(reg, Wrapper)
  {
  }

  lemma ChildClassWellFormed(reg: Registry)
    requires ClassTables(reg)
    ensures EntryWellFormed(reg, ChildClass)
  {
    assert reg.structs[ChildClass].baseClasses == [BasicClass];
  }

  lemma SecondLevelChildClassWellFormed(reg: Registry)
    requires ClassTables(reg)
    ensures EntryWellFormed(reg, SecondLevelChildClass)
  {
    assert reg.structs[SecondLevelChildClass].baseClasses == [ChildClass];
  }

  lemma ScalarEntryWellFormed(reg: Registry, t: TypeId)
    requires ClassTables(reg) && StructTables(reg)
    requires t == BasicClass || t == ChildOfUnreflectedBaseClass || t == Empty || t == Basics
    ensures EntryWellFormed(reg, t)
  {
    assert reg.structs[t].baseClasses == [];
    assert forall m :: m in reg.structs[t].publicFields ==> m.ty.IsScalar();
  }

  /** The four generated class tables, entry by entry. */
  predicate ClassTables(reg: Registry) {
    && BasicClass in reg.structs && reg.structs[BasicClass] == MetaStruct(BasicsFields, [], 0)
    && ChildClass in reg.structs && reg.structs[ChildClass] == MetaStruct([ClassMember("publicField", IntT)], [BasicClass], 1)
    && SecondLevelChildClass in reg.structs
    && reg.structs[SecondLevelChildClass] == MetaStruct([ClassMember("someField", DoubleT)], [ChildClass], 2)
    && ChildOfUnreflectedBaseClass in reg.structs
    && reg.structs[ChildOfUnreflectedBaseClass] == MetaStruct([ClassMember("childField", IntT)], [], 0)
  }

  lemma TestRegistryClassTables()
    ensures ClassTables(TestRegistry())
  {
  }

  /** A type without bases visits exactly its own fields, in declaration order. */
  lemma OwnOnly(reg: Registry, t: TypeId)
    requires WellFormed(reg) && t in reg.structs && Bases(reg, t) == []
    ensures Traversal(reg, t) == OwnVisits(reg, t)
  {
    assert BasesTraversal(reg, [], Depth(reg, t)) == [];
  }

  /** A type with one base visits its own fields, then the base's whole traversal. */
  lemma OneBase(reg: Registry, t: TypeId, b: TypeId)
    requires WellFormed(reg) && t in reg.structs && Bases(reg, t) == [b]
    ensures b in reg.structs && Traversal(reg, t) == OwnVisits(reg, t) + Traversal(reg, b)
  {
    assert b in Bases(reg, t);
    assert [b][1..] == [];
    assert BasesTraversal(reg, [b], Depth(reg, t)) == Traversal(reg, b) + BasesTraversal(reg, [], Depth(reg, t));
  }

  lemma BasicClassTraversal(reg: Registry)
    requires WellFormed(reg) && ClassTables(reg)
    ensures Traversal(reg, BasicClass) ==
      [Visit(BasicClass, "b", BoolT), Visit(BasicClass, "i", IntT), Visit(BasicClass, "d", DoubleT)]
  {
    assert Fields(reg, BasicClass) == BasicsFields;
    OwnOnly(reg, BasicClass);
  }

  /** `ChildClass` visits its own `publicField`, then the whole of `BasicClass`. */
  lemma ChildClassTraversal(reg: Registry)
    requires WellFormed(reg) && ClassTables(reg)
    ensures Traversal(reg, ChildClass) == [Visit(ChildClass, "publicField", IntT)] + Traversal(reg, BasicClass)
  {
    OneBase(reg, ChildClass, BasicClass);
    var own := OwnVisits(reg, ChildClass);
    assert Fields(reg, ChildClass) == [ClassMember("publicField", IntT)];
    assert |own| == 1 && own[0] == Visit(ChildClass, "publicField", IntT);
    assert own == [Visit(ChildClass, "publicField", IntT)];
  }

  /** Four calls for `ChildClass`: `publicField`, `b`, `i`, `d`. */
  lemma ChildClassNames(reg: Registry)
    requires WellFormed(reg) && ClassTables(reg)
    ensures Names(Traversal(reg, ChildClass)) == ["publicField", "b", "i", "d"]
  {
    BasicClassTraversal(reg);
    ChildClassTraversal(reg);
    NamesOfVisits(Traversal(reg, ChildClass), ["publicField", "b", "i", "d"]);
  }

  /** `SecondLevelChildClass` visits `someField`, then the whole of `ChildClass`. */
  lemma SecondLevelChildClassTraversal(reg: Registry)
    requires WellFormed(reg) && ClassTables(reg)
    ensures Traversal(reg, SecondLevelChildClass) ==
      [Visit(SecondLevelChildClass, "someField", DoubleT)] + Traversal(reg, ChildClass)
  {
    OneBase(reg, SecondLevelChildClass, ChildClass);
    var own := OwnVisits(reg, SecondLevelChildClass);
    assert Fields(reg, SecondLevelChildClass) == [ClassMember("someField", DoubleT)];
    assert |own| == 1 && own[0] == Visit(SecondLevelChildClass, "someField", DoubleT);
    assert own == [Visit(SecondLevelChildClass, "someField", DoubleT)];
  }

  /** Five calls for `SecondLevelChildClass`: `someField`, then `ChildClass`'s four. */
  lemma SecondLevelChildClassNames(reg: Registry)
    requires WellFormed(reg) && ClassTables(reg)
    ensures Names(Traversal(reg, SecondLevelChildClass)) == ["someField", "publicField", "b", "i", "d"]
  {
    BasicClassTraversal(reg);
    ChildClassTraversal(reg);
    SecondLevelChildClassTraversal(reg);
    NamesOfVisits(Traversal(reg, SecondLevelChildClass), ["someField", "publicField", "b", "i", "d"]);
  }

  lemma NamesOfVisits(vs: seq<Visit>, names: seq<string>)
    requires |vs| == |names| && forall k :: 0 <= k < |vs| ==> vs[k].name == names[k]
    ensures Names(vs) == names
  {
  }

  /** The unannotated base of `ChildOfUnreflectedBaseClass` is not visited: one call. */
  lemma ChildOfUnreflectedBaseClassTraversal(reg: Registry)
    requires WellFormed(reg) && ClassTables(reg)
    ensures Traversal(reg, ChildOfUnreflectedBaseClass) == [Visit(ChildOfUnreflectedBaseClass, "childField", IntT)]
  {
    assert Fields(reg, ChildOfUnreflectedBaseClass) == [ClassMember("childField", IntT)];
    OwnOnly(reg, ChildOfUnreflectedBaseClass);
  }

  /** The tables of the records the visitor tests use. */
  predicate StructTables(reg: Registry) {
    && Empty in reg.structs && reg.structs[Empty] == MetaStruct([], [], 0)
    && Basics in reg.structs && reg.structs[Basics] == MetaStruct(BasicsFields, [], 0)
    && Wrapper in reg.structs && reg.structs[Wrapper] == MetaStruct(WrapperFields, [], 1)
  }

  lemma TestRegistryStructTables()
    ensures StructTables(TestRegistry())
  {
  }

  lemma EmptyTraversal(reg: Registry)
    requires WellFormed(reg) && StructTables(reg)
    ensures Traversal(reg, Empty) == []
  {
    OwnOnly(reg, Empty);
  }

  lemma BasicsTraversal(reg: Registry)
    requires WellFormed(reg) && StructTables(reg)
    ensures Traversal(reg, Basics) == [Visit(Basics, "b", BoolT), Visit(Basics, "i", IntT), Visit(Basics, "d", DoubleT)]
  {
    assert Fields(reg, Basics) == BasicsFields;
    OwnOnly(reg, Basics);
  }

  lemma WrapperTraversal(reg: Registry)
    requires WellFormed(reg) && StructTables(reg)
    ensures Traversal(reg, Wrapper) == [
      Visit(Wrapper, "i", IntT),
      Visit(Wrapper, "d", DoubleT),
      Visit(Wrapper, "b", RecordT(Basics)),
      Visit(Wrapper, "basicsArr", CArrayT(RecordT(Basics), 3)),
      Visit(Wrapper, "basicsStdarr", StdArrayT(RecordT(Basics), 2))]
  {
    assert Fields(reg, Wrapper) == WrapperFields;
    OwnOnly(reg, Wrapper);
  }

  /** The counting type visitor of the tests: an exact `type_tag<int>` case and a `base_tag` case
      for every other field type. Its state is (ints, otherTypes). */
  const IntCase: TagVisitor<bool> := TagVisitor(map[IntT := true], false)

  function CountStep(c: (int, int), v: Visit): (int, int) {
    if Dispatch(IntCase, v.ty) then (c.0 + 1, c.1) else (c.0, c.1 + 1)
  }

  /** The number of `int` fields among `vs`. */
  function IntFields(vs: seq<Visit>): nat {
    if vs == [] then 0 else (if vs[0].ty == IntT then 1 else 0) + IntFields(vs[1..])
  }

  /** After a run over `vs` the counting visitor has seen one `int` per `int` field and one
      other type per other field: every field is counted once, by exactly one case. */
  lemma {:induction false} CountTypes(vs: seq<Visit>, c: (int, int))
    ensures ForEach(vs, CountStep, c) == (c.0 + IntFields(vs), c.1 + |vs| - IntFields(vs))
    decreases |vs|
  {
    if vs != [] {
      CountTypes(vs[1..], CountStep(c, vs[0]));
    }
  }

  /** `countAllTypes<ChildClass>()` is 4 and two of the four fields are `int`s. */
  lemma ChildClassCounts(reg: Registry)
    requires WellFormed(reg) && ClassTables(reg)
    ensures VisitType(reg, ChildClass, CountStep, (0, 0)) == (2, 2)
  {
    BasicClassTraversal(reg);
    ChildClassTraversal(reg);
    VisitTypeIsFold(reg, ChildClass, CountStep, (0, 0));
    CountTypes(Traversal(reg, ChildClass), (0, 0));
    IntFieldsFour(Traversal(reg, ChildClass));
  }

  lemma IntFieldsFour(vs: seq<Visit>)
    requires |vs| == 4 && vs[0].ty == IntT && vs[1].ty == BoolT && vs[2].ty == IntT && vs[3].ty == DoubleT
    ensures IntFields(vs) == 2
  {
    assert vs[3..][1..] == [] && vs[2..][1..] == vs[3..] && vs[1..][1..] == vs[2..];
    assert IntFields(vs[3..]) == 0;
    assert IntFields(vs[2..]) == 1;
    assert IntFields(vs[1..]) == 1;
  }

  // ---------------------------------------------------------------------------------------------
  // Values of the test records.

  function BasicsValue(b: bool, i: int, d: real): Value {
    RecordV(map[(Basics, "b") := BoolV(b), (Basics, "i") := IntV(i), (Basics, "d") := DoubleV(d)])
  }

  lemma BasicsSlots(reg: Registry)
    requires WellFormed(reg) && StructTables(reg)
    ensures SlotsOf(reg, Basics) == {(Basics, "b"), (Basics, "i"), (Basics, "d")}
  {
    BasicsTraversal(reg);
    ThreeSlots(Traversal(reg, Basics));
  }

  lemma ThreeSlots(vs: seq<Visit>)
    requires |vs| == 3
    ensures (set v | v in vs :: v.Slot()) == {vs[0].Slot(), vs[1].Slot(), vs[2].Slot()}
  {
    forall v | v in vs ensures v.Slot() in {vs[0].Slot(), vs[1].Slot(), vs[2].Slot()} {
      var k :| 0 <= k < |vs| && vs[k] == v;
    }
  }

  lemma FiveSlots(vs: seq<Visit>)
    requires |vs| == 5
    ensures (set v | v in vs :: v.Slot()) == {vs[0].Slot(), vs[1].Slot(), vs[2].Slot(), vs[3].Slot(), vs[4].Slot()}
  {
    forall v | v in vs ensures v.Slot() in {vs[0].Slot(), vs[1].Slot(), vs[2].Slot(), vs[3].Slot(), vs[4].Slot()} {
      var k :| 0 <= k < |vs| && vs[k] == v;
    }
  }

  lemma BasicsValueHasType(reg: Registry, b: bool, i: int, d: real)
    requires WellFormed(reg) && StructTables(reg)
    ensures HasType(reg, BasicsValue(b, i, d), RecordT(Basics))
  {
    var v := BasicsValue(b, i, d);
    BasicsValueSlots(b, i, d);
    BasicsSlots(reg);
    BasicsTraversal(reg);
    BasicsFieldsTyped(reg, v.slots, Traversal(reg, Basics));
    RecordHasType(reg, Basics, v);
  }

  lemma BasicsValueSlots(b: bool, i: int, d: real)
    ensures var s := BasicsValue(b, i, d).slots;
      s.Keys == {(Basics, "b"), (Basics, "i"), (Basics, "d")} &&
      s[(Basics, "b")] == BoolV(b) && s[(Basics, "i")] == IntV(i) && s[(Basics, "d")] == DoubleV(d)
  {
  }

  /** Slots holding a boolean `b`, an integer `i` and a double `d` fit the visits of `Basics`. */
  lemma BasicsFieldsTyped(reg: Registry, s: map<Slot, Value>, vs: seq<Visit>)
    requires WellFormed(reg) && vs == [Visit(Basics, "b", BoolT), Visit(Basics, "i", IntT), Visit(Basics, "d", DoubleT)]
    requires (Basics, "b") in s && s[(Basics, "b")].BoolV?
    requires (Basics, "i") in s && s[(Basics, "i")].IntV?
    requires (Basics, "d") in s && s[(Basics, "d")].DoubleV?
    ensures forall k :: 0 <= k < |vs| ==> vs[k].Slot() in s && HasType(reg, s[vs[k].Slot()], vs[k].ty)
  {
  }

  /** A `Wrapper`: `i`, `d`, a nested `Basics`, a C array of three and a `std::array` of two. */
  function WrapperValue(i: int, d: real, b: Value, arr: seq<Value>, stdarr: seq<Value>): Value {
    RecordV(map[
      (Wrapper, "i") := IntV(i),
      (Wrapper, "d") := DoubleV(d),
      (Wrapper, "b") := b,
      (Wrapper, "basicsArr") := ArrayV(arr),
      (Wrapper, "basicsStdarr") := ArrayV(stdarr)])
  }

  lemma WrapperSlots(reg: Registry)
    requires WellFormed(reg) && StructTables(reg)
    ensures SlotsOf(reg, Wrapper) ==
      {(Wrapper, "i"), (Wrapper, "d"), (Wrapper, "b"), (Wrapper, "basicsArr"), (Wrapper, "basicsStdarr")}
  {
    WrapperTraversal(reg);
    FiveSlots(Traversal(reg, Wrapper));
  }

  lemma WrapperValueHasType(reg: Registry, i: int, d: real, b: Value, arr: seq<Value>, stdarr: seq<Value>)
    requires WellFormed(reg) && StructTables(reg)
    requires HasType(reg, b, RecordT(Basics))
    requires |arr| == 3 && forall k :: 0 <= k < 3 ==> HasType(reg, arr[k], RecordT(Basics))
    requires |stdarr| == 2 && forall k :: 0 <= k < 2 ==> HasType(reg, stdarr[k], RecordT(Basics))
    ensures HasType(reg, WrapperValue(i, d, b, arr, stdarr), RecordT(Wrapper))
  {
    var w := WrapperValue(i, d, b, arr, stdarr);
    WrapperValueSlots(i, d, b, arr, stdarr);
    WrapperSlots(reg);
    assert HasType(reg, ArrayV(arr), CArrayT(RecordT(Basics), 3));
    assert HasType(reg, ArrayV(stdarr), StdArrayT(RecordT(Basics), 2));
    WrapperTraversal(reg);
    WrapperFieldsTyped(reg, w.slots, b, ArrayV(arr), ArrayV(stdarr), Traversal(reg, Wrapper));
    RecordHasType(reg, Wrapper, w);
  }

  lemma WrapperValueSlots(i: int, d: real, b: Value, arr: seq<Value>, stdarr: seq<Value>)
    ensures var s := WrapperValue(i, d, b, arr, stdarr).slots;
      s.Keys == {(Wrapper, "i"), (Wrapper, "d"), (Wrapper, "b"), (Wrapper, "basicsArr"), (Wrapper, "basicsStdarr")} &&
      s[(Wrapper, "i")] == IntV(i) && s[(Wrapper, "d")] == DoubleV(d) && s[(Wrapper, "b")] == b &&
      s[(Wrapper, "basicsArr")] == ArrayV(arr) && s[(Wrapper, "basicsStdarr")] == ArrayV(stdarr)
  {
  }

  /** Slots holding fields of the right types fit the visits of `Wrapper`. */
  lemma WrapperFieldsTyped(reg: Registry, s: map<Slot, Value>, b: Value, arr: Value, stdarr: Value, vs: seq<Visit>)
    requires WellFormed(reg)
    requires vs == [
      Visit(Wrapper, "i", IntT),
      Visit(Wrapper, "d", DoubleT),
      Visit(Wrapper, "b", RecordT(Basics)),
      Visit(Wrapper, "basicsArr", CArrayT(RecordT(Basics), 3)),
      Visit(Wrapper, "basicsStdarr", StdArrayT(RecordT(Basics), 2))]
    requires HasType(reg, b, RecordT(Basics))
    requires HasType(reg, arr, CArrayT(RecordT(Basics), 3)) && HasType(reg, stdarr, StdArrayT(RecordT(Basics), 2))
    requires (Wrapper, "i") in s && s[(Wrapper, "i")].IntV?
    requires (Wrapper, "d") in s && s[(Wrapper, "d")].DoubleV?
    requires (Wrapper, "b") in s && s[(Wrapper, "b")] == b
    requires (Wrapper, "basicsArr") in s && s[(Wrapper, "basicsArr")] == arr
    requires (Wrapper, "basicsStdarr") in s && s[(Wrapper, "basicsStdarr")] == stdarr
    ensures forall k :: 0 <= k < |vs| ==> vs[k].Slot() in s && HasType(reg, s[vs[k].Slot()], vs[k].ty)
  {
    forall k | 0 <= k < |vs| ensures vs[k].Slot() in s && HasType(reg, s[vs[k].Slot()], vs[k].ty) {
      if k == 0 {} else if k == 1 {} else if k == 2 {} else if k == 3 {} else {}
    }
  }

  /** The record case of `HasType`, for a value known slot by slot. */
  lemma RecordHasType(reg: Registry, id: TypeId, v: Value)
    requires WellFormed(reg) && id in reg.structs && v.RecordV? && v.slots.Keys == SlotsOf(reg, id)
    requires forall k :: 0 <= k < |Traversal(reg, id)| ==>
      HasType(reg, v.slots[Traversal(reg, id)[k].Slot()], Traversal(reg, id)[k].ty)
    ensures HasType(reg, v, RecordT(id))
  {
  }

  /** A local type without a table is not visitable; `Basics` is, and so are the test enums. */
  lemma TestVisitability()
    ensures !IsVisitable(TestRegistry(), "MyType")
    ensures IsVisitable(TestRegistry(), Basics) && IsVisitable(TestRegistry(), Scoped)
  {
  }
}
