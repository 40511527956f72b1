/** The JSON adapter on the test registry: the default `Wrapper` of the JSON tests becomes the
    hand-built document, and that document reads back into the same `Wrapper`. */
module JsonFixtures {
  import opened Wrappers
  import opened Types
  import opened Visiting
  import opened Values
  import opened Json
  import opened JsonVisitor
  import opened JsonProperties
  import opened TestTypes
  import SV = StructVisitor

  function B1(): Value { BasicsValue(true, 1, 2.5) }
  function B2(): Value { BasicsValue(false, -5, 3.4) }

  /** `buildDefaultWrapper()`. */
  function DefaultWrapper(): Value {
    WrapperValue(9, -2.2, B1(), [B1(), B2(), B1()], [B2(), B2()])
  }

  /** A `Basics` document, its members in key order. */
  function BasicsJson(b: bool, i: int, d: real): Json {
    JObject([("b", JBool(b)), ("d", JReal(d)), ("i", JInt(i))])
  }

  /** `buildDefaultWrapperJson()`, its members in key order as the document keeps them. */
  function DefaultWrapperJson(): Json {
    var b1 := BasicsJson(true, 1, 2.5);
    var b2 := BasicsJson(false, -5, 3.4);
    JObject([
      ("b", b1),
      ("basicsArr", JArray([b1, b2, b1])),
      ("basicsStdarr", JArray([b2, b2])),
      ("d", JReal(-2.2)),
      ("i", JInt(9))])
  }

  /** Setting `b`, `i` and `d` in that order on a null document gives the members in key order. */
  lemma BasicsKeys(b: bool, i: int, d: real)
    ensures SetKey(SetKey(SetKey(JNull, "b", JBool(b)), "i", JInt(i)), "d", JReal(d)) == BasicsJson(b, i, d)
  {
    var d1 := SetKey(JNull, "b", JBool(b));
    assert d1 == JObject([("b", JBool(b))]);
    assert KeyLess("b", "i") && !KeyLess("i", "b");
    var m1 := [("b", JBool(b))];
    assert m1[1..] == [] && m1[0].0 != "i";
    assert Insert(m1, "i", JInt(i)) == [("b", JBool(b)), ("i", JInt(i))];
    var m2 := [("b", JBool(b)), ("i", JInt(i))];
    assert KeyLess("d", "i") && !KeyLess("d", "b");
    assert m2[1..] == [("i", JInt(i))] && m2[0].0 != "d" && m2[1].0 != "d";
    assert Insert(m2[1..], "d", JReal(d)) == [("d", JReal(d)), ("i", JInt(i))];
    assert Insert(m2, "d", JReal(d)) == [("b", JBool(b)), ("d", JReal(d)), ("i", JInt(i))];
  }

  /** The document of a `Basics`: `b`, `i` and `d` written in that order land in key order. */
  lemma BasicsToJson(reg: Registry, b: bool, i: int, d: real, bound: nat)
    requires WellFormed(reg) && StructTables(reg) && bound > 0
    ensures RecordsBelow(reg, RecordT(Basics), bound) && HasType(reg, BasicsValue(b, i, d), RecordT(Basics))
    ensures ToJsonValue(reg, RecordT(Basics), BasicsValue(b, i, d), bound) == BasicsJson(b, i, d)
  {
    BasicsTraversal(reg);
    BasicsValueHasType(reg, b, i, d);
    var vs := Traversal(reg, Basics);
    var slots := BasicsValue(b, i, d).slots;
    TraversalFieldsBelow(reg, Basics);
    RecordSlotsTyped(reg, Basics, BasicsValue(b, i, d));
    ThreeWrites(reg, vs, slots, 0, JBool(b), JInt(i), JReal(d));
    BasicsKeys(b, i, d);
  }

  /** The key order on the names of `Wrapper`: "b" is a proper prefix of the two array names,
      which first differ at 'A' < 'S'. */
  lemma WrapperKeyOrder()
    ensures KeyLess("b", "basicsArr") && KeyLess("basicsArr", "basicsStdarr") && KeyLess("basicsStdarr", "d")
    ensures KeyLess("b", "d") && KeyLess("d", "i") && KeyLess("basicsArr", "d")
  {
    assert KeyLess("Arr", "Stdarr");
    KeyLessPrefix("basics", "Arr", "Stdarr");
    assert "basics" + "Arr" == "basicsArr" && "basics" + "Stdarr" == "basicsStdarr";
    assert "b"[1..] == [];
  }

  /** Setting `i`, `d`, `b`, `basicsArr` and `basicsStdarr` in that order on a null document gives
      the members in key order: `b`, `basicsArr`, `basicsStdarr`, `d`, `i`. */
  lemma WrapperKeys(xi: Json, xd: Json, xb: Json, xarr: Json, xstd: Json)
    ensures SetKey(SetKey(SetKey(SetKey(SetKey(JNull, "i", xi), "d", xd), "b", xb), "basicsArr", xarr), "basicsStdarr", xstd)
      == JObject([("b", xb), ("basicsArr", xarr), ("basicsStdarr", xstd), ("d", xd), ("i", xi)])
  {
    var m3 := [("b", xb), ("d", xd), ("i", xi)];
    FrontKeys(xi, xd, xb);
    ArrayInserts(xi, xd, xb, xarr, xstd);
    assert SetKey(JObject(m3), "basicsArr", xarr) == JObject([("b", xb), ("basicsArr", xarr), ("d", xd), ("i", xi)]);
  }

  /** Setting `i`, `d` and `b` on a null document gives `b`, `d`, `i`. */
  lemma FrontKeys(xi: Json, xd: Json, xb: Json)
    ensures SetKey(SetKey(SetKey(JNull, "i", xi), "d", xd), "b", xb) == JObject([("b", xb), ("d", xd), ("i", xi)])
  {
    var m1 := [("i", xi)];
    var m2 := [("d", xd), ("i", xi)];
    assert SetKey(JNull, "i", xi) == JObject(m1);
    FrontInserts(xi, xd, xb);
    assert SetKey(JObject(m1), "d", xd) == JObject(m2);
  }

  lemma FrontInserts(xi: Json, xd: Json, xb: Json)
    ensures Insert([("i", xi)], "d", xd) == [("d", xd), ("i", xi)]
    ensures Insert([("d", xd), ("i", xi)], "b", xb) == [("b", xb), ("d", xd), ("i", xi)]
  {
    WrapperKeyOrder();
    InsertBefore([("i", xi)], "d", xd);
    InsertBefore([("d", xd), ("i", xi)], "b", xb);
  }

  lemma ArrayInserts(xi: Json, xd: Json, xb: Json, xarr: Json, xstd: Json)
    ensures Insert([("b", xb), ("d", xd), ("i", xi)], "basicsArr", xarr) ==
      [("b", xb), ("basicsArr", xarr), ("d", xd), ("i", xi)]
    ensures Insert([("b", xb), ("basicsArr", xarr), ("d", xd), ("i", xi)], "basicsStdarr", xstd) ==
      [("b", xb), ("basicsArr", xarr), ("basicsStdarr", xstd), ("d", xd), ("i", xi)]
  {
    WrapperKeyOrder();
    var m2 := [("d", xd), ("i", xi)];
    ArrInsert(xb, xarr, m2);
    StdarrInsert(xb, xarr, xstd, m2);
  }

  lemma ArrInsert(xb: Json, xarr: Json, m2: seq<(string, Json)>)
    requires KeyLess("b", "basicsArr") && m2 != [] && KeyLess("basicsArr", m2[0].0)
    ensures Insert([("b", xb)] + m2, "basicsArr", xarr) == [("b", xb), ("basicsArr", xarr)] + m2
  {
    InsertAfter([("b", xb)] + m2, "basicsArr", xarr, m2);
    InsertBefore(m2, "basicsArr", xarr);
  }

  lemma StdarrInsert(xb: Json, xarr: Json, xstd: Json, m2: seq<(string, Json)>)
    requires KeyLess("b", "basicsStdarr") && KeyLess("basicsArr", "basicsStdarr")
    requires m2 != [] && KeyLess("basicsStdarr", m2[0].0)
    ensures Insert([("b", xb), ("basicsArr", xarr)] + m2, "basicsStdarr", xstd) ==
      [("b", xb), ("basicsArr", xarr), ("basicsStdarr", xstd)] + m2
  {
    var tail := [("basicsArr", xarr)] + m2;
    assert [("b", xb), ("basicsArr", xarr)] + m2 == [("b", xb)] + tail;
    InsertAfter([("b", xb)] + tail, "basicsStdarr", xstd, tail);
    InsertAfter(tail, "basicsStdarr", xstd, m2);
    InsertBefore(m2, "basicsStdarr", xstd);
  }

  /** A C array `{x, y, x}` converts item by item. */
  lemma CArrayOf3(reg: Registry, e: FieldType, x: Value, y: Value, jx: Json, jy: Json, bound: nat)
    requires WellFormed(reg) && RecordsBelow(reg, e, bound) && HasType(reg, x, e) && HasType(reg, y, e)
    requires ToJsonValue(reg, e, x, bound) == jx && ToJsonValue(reg, e, y, bound) == jy
    ensures HasType(reg, ArrayV([x, y, x]), CArrayT(e, 3)) && RecordsBelow(reg, CArrayT(e, 3), bound)
    ensures ToJsonValue(reg, CArrayT(e, 3), ArrayV([x, y, x]), bound) == JArray([jx, jy, jx])
  {
    assert HasType(reg, ArrayV([x, y, x]), CArrayT(e, 3));
    assert JsonItems(reg, e, [x, y, x], bound) == [jx, jy, jx];
  }

  /** A `std::array` `{x, x}` converts item by item. */
  lemma StdArrayOf2(reg: Registry, e: FieldType, x: Value, jx: Json, bound: nat)
    requires WellFormed(reg) && RecordsBelow(reg, e, bound) && HasType(reg, x, e)
    requires ToJsonValue(reg, e, x, bound) == jx
    ensures HasType(reg, ArrayV([x, x]), StdArrayT(e, 2)) && RecordsBelow(reg, StdArrayT(e, 2), bound)
    ensures ToJsonValue(reg, StdArrayT(e, 2), ArrayV([x, x]), bound) == JArray([jx, jx])
  {
    assert HasType(reg, ArrayV([x, x]), StdArrayT(e, 2));
    assert JsonItems(reg, e, [x, x], bound) == [jx, jx];
  }

  lemma BasicsValuesTyped(reg: Registry)
    requires WellFormed(reg) && StructTables(reg)
    ensures RecordsBelow(reg, RecordT(Basics), 1)
    ensures HasType(reg, B1(), RecordT(Basics)) && HasType(reg, B2(), RecordT(Basics))
  {
    BasicsValueHasType(reg, true, 1, 2.5);
    BasicsValueHasType(reg, false, -5, 3.4);
  }

  /** The document of the C array field of the default `Wrapper`. */
  lemma ArrDoc(reg: Registry)
    requires WellFormed(reg) && StructTables(reg)
    ensures HasType(reg, ArrayV([B1(), B2(), B1()]), CArrayT(RecordT(Basics), 3)) && RecordsBelow(reg, CArrayT(RecordT(Basics), 3), 1)
    ensures ToJsonValue(reg, CArrayT(RecordT(Basics), 3), ArrayV([B1(), B2(), B1()]), 1) ==
      JArray([BasicsJson(true, 1, 2.5), BasicsJson(false, -5, 3.4), BasicsJson(true, 1, 2.5)])
  {
    BasicsToJson(reg, true, 1, 2.5, 1);
    BasicsToJson(reg, false, -5, 3.4, 1);
    CArrayOf3(reg, RecordT(Basics), B1(), B2(), BasicsJson(true, 1, 2.5), BasicsJson(false, -5, 3.4), 1);
  }

  /** The document of the `std::array` field of the default `Wrapper`. */
  lemma StdarrDoc(reg: Registry)
    requires WellFormed(reg) && StructTables(reg)
    ensures HasType(reg, ArrayV([B2(), B2()]), StdArrayT(RecordT(Basics), 2)) && RecordsBelow(reg, StdArrayT(RecordT(Basics), 2), 1)
    ensures ToJsonValue(reg, StdArrayT(RecordT(Basics), 2), ArrayV([B2(), B2()]), 1) ==
      JArray([BasicsJson(false, -5, 3.4), BasicsJson(false, -5, 3.4)])
  {
    BasicsToJson(reg, false, -5, 3.4, 1);
    StdArrayOf2(reg, RecordT(Basics), B2(), BasicsJson(false, -5, 3.4), 1);
  }

  lemma DefaultWrapperTyped(reg: Registry)
    requires WellFormed(reg) && StructTables(reg)
    ensures HasType(reg, DefaultWrapper(), RecordT(Wrapper))
  {
    BasicsValuesTyped(reg);
    ElementsTyped(reg, RecordT(Basics), B1(), B2());
    WrapperValueHasType(reg, 9, -2.2, B1(), [B1(), B2(), B1()], [B2(), B2()]);
  }

  lemma ElementsTyped(reg: Registry, ty: FieldType, x: Value, y: Value)
    requires WellFormed(reg) && HasType(reg, x, ty) && HasType(reg, y, ty)
    ensures |[x, y, x]| == 3 && forall k :: 0 <= k < 3 ==> HasType(reg, [x, y, x][k], ty)
    ensures |[y, y]| == 2 && forall k :: 0 <= k < 2 ==> HasType(reg, [y, y][k], ty)
  {
  }

  /** Three writes, one per visit. */
  lemma ThreeWrites(reg: Registry, vs: seq<Visit>, slots: map<Slot, Value>, bound: nat, x0: Json, x1: Json, x2: Json)
    requires WellFormed(reg) && FieldsBelow(reg, vs, bound) && SlotsTyped(reg, vs, slots) && |vs| == 3
    requires x0 == ToJsonValue(reg, vs[0].ty, slots[vs[0].Slot()], bound)
    requires x1 == ToJsonValue(reg, vs[1].ty, slots[vs[1].Slot()], bound)
    requires x2 == ToJsonValue(reg, vs[2].ty, slots[vs[2].Slot()], bound)
    ensures WriteFields(reg, vs, slots, JNull, bound) ==
      SetKey(SetKey(SetKey(JNull, vs[0].name, x0), vs[1].name, x1), vs[2].name, x2)
  {
    var d1 := SetKey(JNull, vs[0].name, x0);
    var d2 := SetKey(d1, vs[1].name, x1);
    WriteFieldsStep(reg, vs, 0, slots, JNull, x0, bound);
    WriteFieldsStep(reg, vs, 1, slots, d1, x1, bound);
    WriteFieldsStep(reg, vs, 2, slots, d2, x2, bound);
    assert vs[0..] == vs && vs[3..] == [];
  }

  /** Five writes, one per visit. */
  lemma FiveWrites(reg: Registry, vs: seq<Visit>, slots: map<Slot, Value>, bound: nat, x0: Json, x1: Json, x2: Json, x3: Json, x4: Json)
    requires WellFormed(reg) && FieldsBelow(reg, vs, bound) && SlotsTyped(reg, vs, slots) && |vs| == 5
    requires x0 == ToJsonValue(reg, vs[0].ty, slots[vs[0].Slot()], bound)
    requires x1 == ToJsonValue(reg, vs[1].ty, slots[vs[1].Slot()], bound)
    requires x2 == ToJsonValue(reg, vs[2].ty, slots[vs[2].Slot()], bound)
    requires x3 == ToJsonValue(reg, vs[3].ty, slots[vs[3].Slot()], bound)
    requires x4 == ToJsonValue(reg, vs[4].ty, slots[vs[4].Slot()], bound)
    ensures WriteFields(reg, vs, slots, JNull, bound) ==
      SetKey(SetKey(SetKey(SetKey(SetKey(JNull, vs[0].name, x0), vs[1].name, x1), vs[2].name, x2), vs[3].name, x3), vs[4].name, x4)
  {
    var d1 := SetKey(JNull, vs[0].name, x0);
    var d2 := SetKey(d1, vs[1].name, x1);
    WriteFieldsStep(reg, vs, 0, slots, JNull, x0, bound);
    WriteFieldsStep(reg, vs, 1, slots, d1, x1, bound);
    LastThreeWrites(reg, vs, slots, bound, d2, x2, x3, x4);
    assert vs[0..] == vs;
  }

  /** The writes of the third, fourth and fifth visit onto the document the first two left. */
  lemma LastThreeWrites(reg: Registry, vs: seq<Visit>, slots: map<Slot, Value>, bound: nat, d2: Json, x2: Json, x3: Json, x4: Json)
    requires WellFormed(reg) && FieldsBelow(reg, vs, bound) && SlotsTyped(reg, vs, slots) && |vs| == 5
    requires d2.JNull? || d2.JObject?
    requires x2 == ToJsonValue(reg, vs[2].ty, slots[vs[2].Slot()], bound)
    requires x3 == ToJsonValue(reg, vs[3].ty, slots[vs[3].Slot()], bound)
    requires x4 == ToJsonValue(reg, vs[4].ty, slots[vs[4].Slot()], bound)
    ensures WriteFields(reg, vs[2..], slots, d2, bound) ==
      SetKey(SetKey(SetKey(d2, vs[2].name, x2), vs[3].name, x3), vs[4].name, x4)
  {
    var d3 := SetKey(d2, vs[2].name, x2);
    var d4 := SetKey(d3, vs[3].name, x3);
    WriteFieldsStep(reg, vs, 2, slots, d2, x2, bound);
    WriteFieldsStep(reg, vs, 3, slots, d3, x3, bound);
    WriteFieldsStep(reg, vs, 4, slots, d4, x4, bound);
    assert vs[5..] == [];
  }

  /** The visits of `Wrapper`, in order. */
  const WrapperVisitList: seq<Visit> := [
    Visit(Wrapper, "i", IntT),
    Visit(Wrapper, "d", DoubleT),
    Visit(Wrapper, "b", RecordT(Basics)),
    Visit(Wrapper, "basicsArr", CArrayT(RecordT(Basics), 3)),
    Visit(Wrapper, "basicsStdarr", StdArrayT(RecordT(Basics), 2))]

  /** The slot, name and type of each visit of `Wrapper`. */
  lemma WrapperVisitFacts()
    ensures |WrapperVisitList| == 5
    ensures WrapperVisitList[0].Slot() == (Wrapper, "i") && WrapperVisitList[0].name == "i" && WrapperVisitList[0].ty == IntT
    ensures WrapperVisitList[1].Slot() == (Wrapper, "d") && WrapperVisitList[1].name == "d" && WrapperVisitList[1].ty == DoubleT
    ensures WrapperVisitList[2].Slot() == (Wrapper, "b") && WrapperVisitList[2].name == "b" && WrapperVisitList[2].ty == RecordT(Basics)
    ensures WrapperVisitList[3].Slot() == (Wrapper, "basicsArr") && WrapperVisitList[3].name == "basicsArr"
    ensures WrapperVisitList[3].ty == CArrayT(RecordT(Basics), 3)
    ensures WrapperVisitList[4].Slot() == (Wrapper, "basicsStdarr") && WrapperVisitList[4].name == "basicsStdarr"
    ensures WrapperVisitList[4].ty == StdArrayT(RecordT(Basics), 2)
  {
  }

  /** The visits of `Wrapper` over the slots of the default `Wrapper`. */
  lemma WrapperVisits(reg: Registry)
    requires WellFormed(reg) && StructTables(reg)
    ensures HasType(reg, DefaultWrapper(), RecordT(Wrapper))
    ensures Traversal(reg, Wrapper) == WrapperVisitList && Depth(reg, Wrapper) == 1
    ensures FieldsBelow(reg, WrapperVisitList, 1) && SlotsTyped(reg, WrapperVisitList, DefaultWrapper().slots)
  {
    DefaultWrapperTyped(reg);
    WrapperTraversal(reg);
    TraversalFieldsBelow(reg, Wrapper);
    RecordSlotsTyped(reg, Wrapper, DefaultWrapper());
  }

  /** The slots of the default `Wrapper`. */
  lemma DefaultWrapperSlots()
    ensures DefaultSlots(DefaultWrapper().slots)
  {
  }

  /** The slots hold the fields of `buildDefaultWrapper()`. */
  predicate DefaultSlots(slots: map<Slot, Value>) {
    && (Wrapper, "i") in slots && slots[(Wrapper, "i")] == IntV(9)
    && (Wrapper, "d") in slots && slots[(Wrapper, "d")] == DoubleV(-2.2)
    && (Wrapper, "b") in slots && slots[(Wrapper, "b")] == B1()
    && (Wrapper, "basicsArr") in slots && slots[(Wrapper, "basicsArr")] == ArrayV([B1(), B2(), B1()])
    && (Wrapper, "basicsStdarr") in slots && slots[(Wrapper, "basicsStdarr")] == ArrayV([B2(), B2()])
  }

  /** The type and the document of the `Basics` field of a `Wrapper` holding the default fields. */
  lemma WrapperBasicsDoc(reg: Registry, slots: map<Slot, Value>)
    requires WellFormed(reg) && StructTables(reg) && DefaultSlots(slots)
    ensures RecordsBelow(reg, RecordT(Basics), 1)
    ensures HasType(reg, slots[(Wrapper, "b")], RecordT(Basics))
    ensures ToJsonValue(reg, RecordT(Basics), slots[(Wrapper, "b")], 1) == BasicsJson(true, 1, 2.5)
  {
    BasicsToJson(reg, true, 1, 2.5, 1);
  }

  /** The type and the document of the C array field of a `Wrapper` holding the default fields. */
  lemma WrapperArrDoc(reg: Registry, slots: map<Slot, Value>)
    requires WellFormed(reg) && StructTables(reg) && DefaultSlots(slots)
    ensures HasType(reg, slots[(Wrapper, "basicsArr")], CArrayT(RecordT(Basics), 3))
    ensures ToJsonValue(reg, CArrayT(RecordT(Basics), 3), slots[(Wrapper, "basicsArr")], 1) ==
      JArray([BasicsJson(true, 1, 2.5), BasicsJson(false, -5, 3.4), BasicsJson(true, 1, 2.5)])
  {
    ArrDoc(reg);
  }

  /** The type and the document of the `std::array` field of a `Wrapper` holding the default
      fields. */
  lemma WrapperStdarrDoc(reg: Registry, slots: map<Slot, Value>)
    requires WellFormed(reg) && StructTables(reg) && DefaultSlots(slots)
    ensures HasType(reg, slots[(Wrapper, "basicsStdarr")], StdArrayT(RecordT(Basics), 2))
    ensures ToJsonValue(reg, StdArrayT(RecordT(Basics), 2), slots[(Wrapper, "basicsStdarr")], 1) ==
      JArray([BasicsJson(false, -5, 3.4), BasicsJson(false, -5, 3.4)])
  {
    StdarrDoc(reg);
  }

  /** The document of each visit of `Wrapper` over the default fields. */
  lemma WrapperVisitDocs(reg: Registry, slots: map<Slot, Value>)
    requires WellFormed(reg) && StructTables(reg) && DefaultSlots(slots)
    requires FieldsBelow(reg, WrapperVisitList, 1) && SlotsTyped(reg, WrapperVisitList, slots)
    ensures ToJsonValue(reg, WrapperVisitList[0].ty, slots[WrapperVisitList[0].Slot()], 1) == JInt(9)
    ensures ToJsonValue(reg, WrapperVisitList[1].ty, slots[WrapperVisitList[1].Slot()], 1) == JReal(-2.2)
    ensures ToJsonValue(reg, WrapperVisitList[2].ty, slots[WrapperVisitList[2].Slot()], 1) == BasicsJson(true, 1, 2.5)
    ensures ToJsonValue(reg, WrapperVisitList[3].ty, slots[WrapperVisitList[3].Slot()], 1) == JArray([BasicsJson(true, 1, 2.5), BasicsJson(false, -5, 3.4), BasicsJson(true, 1, 2.5)])
    ensures ToJsonValue(reg, WrapperVisitList[4].ty, slots[WrapperVisitList[4].Slot()], 1) == JArray([BasicsJson(false, -5, 3.4), BasicsJson(false, -5, 3.4)])
  {
    WrapperVisitFacts();
    WrapperBasicsDoc(reg, slots);
    WrapperArrDoc(reg, slots);
    WrapperStdarrDoc(reg, slots);
  }

  /** Writing the visits of `Wrapper` with those documents builds the hand-built document. */
  lemma WrapperWrite(reg: Registry, slots: map<Slot, Value>)
    requires WellFormed(reg) && FieldsBelow(reg, WrapperVisitList, 1) && SlotsTyped(reg, WrapperVisitList, slots)
    requires ToJsonValue(reg, WrapperVisitList[0].ty, slots[WrapperVisitList[0].Slot()], 1) == JInt(9)
    requires ToJsonValue(reg, WrapperVisitList[1].ty, slots[WrapperVisitList[1].Slot()], 1) == JReal(-2.2)
    requires ToJsonValue(reg, WrapperVisitList[2].ty, slots[WrapperVisitList[2].Slot()], 1) == BasicsJson(true, 1, 2.5)
    requires ToJsonValue(reg, WrapperVisitList[3].ty, slots[WrapperVisitList[3].Slot()], 1) == JArray([BasicsJson(true, 1, 2.5), BasicsJson(false, -5, 3.4), BasicsJson(true, 1, 2.5)])
    requires ToJsonValue(reg, WrapperVisitList[4].ty, slots[WrapperVisitList[4].Slot()], 1) == JArray([BasicsJson(false, -5, 3.4), BasicsJson(false, -5, 3.4)])
    ensures WriteFields(reg, WrapperVisitList, slots, JNull, 1) == DefaultWrapperJson()
  {
    WrapperVisitFacts();
    var b1 := BasicsJson(true, 1, 2.5);
    var b2 := BasicsJson(false, -5, 3.4);
    FiveWrites(reg, WrapperVisitList, slots, 1, JInt(9), JReal(-2.2), b1, JArray([b1, b2, b1]), JArray([b2, b2]));
    WrapperKeys(JInt(9), JReal(-2.2), b1, JArray([b1, b2, b1]), JArray([b2, b2]));
  }

  /** `nlohmann::json j = w;` for the default `Wrapper` is the hand-built document. */
  lemma WrapperToJson(reg: Registry)
    requires WellFormed(reg) && StructTables(reg)
    ensures HasType(reg, DefaultWrapper(), RecordT(Wrapper)) && RecordWritable(reg, Wrapper)
    ensures WriteInto(reg, Wrapper, DefaultWrapper(), JNull) == DefaultWrapperJson()
  {
    TestRecordsWritable(reg);
    WrapperVisits(reg);
    DefaultWrapperSlots();
    WrapperVisitDocs(reg, DefaultWrapper().slots);
    WrapperWrite(reg, DefaultWrapper().slots);
  }

  /** No test record declares two fields of one name. */
  lemma TestRegistryFieldNames()
    ensures WellFormed(TestRegistry()) && DistinctFieldNames(TestRegistry())
  {
    TestRegistryWellFormed();
    TestRegistryClassTables();
    TestRegistryStructTables();
    TestRegistryDomain();
    TablesFieldNames(TestRegistry());
  }

  lemma TablesFieldNames(reg: Registry)
    requires ClassTables(reg) && StructTables(reg)
    requires forall t :: t in reg.structs ==> TestTypeId(t)
    ensures DistinctFieldNames(reg)
  {
    forall t | t in reg.structs ensures UniqueNames(reg.structs[t].publicFields) {
      if t == BasicClass || t == Basics { BasicsFieldNames(); }
      if t == Wrapper { WrapperFieldNames(); }
    }
  }

  lemma BasicsFieldNames()
    ensures UniqueNames(BasicsFields)
  {
  }

  lemma WrapperFieldNames()
    ensures UniqueNames(WrapperFields)
  {
    assert |"basicsArr"| != |"basicsStdarr"| && "b" != "basicsArr" && "b" != "basicsStdarr";
  }

  /** `to_json` compiles for `Basics`: it has no reflected base and only scalar fields. */
  lemma BasicsWritable(reg: Registry)
    requires WellFormed(reg) && StructTables(reg)
    ensures RecordsBelow(reg, RecordT(Basics), 1) && Writable(reg, RecordT(Basics), 1)
  {
    BasicsTraversal(reg);
    var vs := Traversal(reg, Basics);
    TraversalFieldsBelow(reg, Basics);
    forall k | 0 <= k < |vs| ensures Writable(reg, vs[k].ty, Depth(reg, Basics)) {
      assert k == 0 || k == 1 || k == 2;
    }
  }

  /** `to_json` compiles for `Wrapper`: it has no reflected base, and the only record it holds,
      directly and in both arrays, is `Basics`. */
  lemma TestRecordsWritable(reg: Registry)
    requires WellFormed(reg) && StructTables(reg)
    ensures RecordWritable(reg, Basics) && RecordWritable(reg, Wrapper)
  {
    BasicsWritable(reg);
    WrapperTraversal(reg);
    WrapperVisitFacts();
    var vs := Traversal(reg, Wrapper);
    TraversalFieldsBelow(reg, Wrapper);
    forall k | 0 <= k < |vs| ensures Writable(reg, vs[k].ty, Depth(reg, Wrapper)) {
      assert k == 0 || k == 1 || k == 2 || k == 3 || k == 4;
    }
  }

  /** A const `ChildClass` cannot be visited, since its base view would be `BasicClass&`, so
      neither `to_json` nor `equalTo` compiles for it; a non-const one can be visited. */
  lemma ChildClassConstVisitRejected(reg: Registry)
    requires WellFormed(reg) && ClassTables(reg)
    ensures InstanceVisitCompiles(reg, ChildClass, false) && !InstanceVisitCompiles(reg, ChildClass, true)
    ensures !RecordWritable(reg, ChildClass) && !SV.StructComparable(reg, ChildClass, false)
  {
    assert Bases(reg, ChildClass) == [BasicClass];
  }

  /** `test_types::Wrapper wFromJson = wJson;` for the hand-built document gives the default
      `Wrapper`. */
  lemma WrapperFromJson(reg: Registry)
    requires WellFormed(reg) && DistinctFieldNames(reg) && StructTables(reg)
    ensures Convert(reg, RecordT(Wrapper), DefaultWrapperJson(), 2) == Ok(DefaultWrapper())
  {
    WrapperToJson(reg);
    WrapperVisits(reg);
    GetRoundTrip(reg, Wrapper, DefaultWrapper());
  }
}
