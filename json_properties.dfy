/** What the JSON adapter guarantees: `to_json` stores every visited field under its name in a
    key-ordered object, `from_json` succeeds only when every visited name is present, reading in
    place agrees with `get<T>()` on a fresh object, and for every type `to_json` compiles for
    reading back what was written gives the value again. Such a type has no reflected bases, so
    the "1:1 field mapping" the adapter asks for always holds for it. */
module JsonProperties {
  import opened Wrappers
  import opened Types
  import opened Visiting
  import opened Values
  import opened Json
  import opened JsonVisitor

  /** No two visits carry the same name. */
  predicate NamesDistinct(vs: seq<Visit>) {
    forall i, j :: 0 <= i < j < |vs| ==> vs[i].name != vs[j].name
  }

  /** A record `to_json` compiles for has no reflected bases, so its visits are its own fields and
      carry distinct names: the 1:1 field mapping the adapter asks for holds for every type the
      adapter can write. */
  lemma WritableNamesDistinct(reg: Registry, t: TypeId, bound: nat)
    requires WellFormed(reg) && DistinctFieldNames(reg) && t in reg.structs
    requires RecordsBelow(reg, RecordT(t), bound) && Writable(reg, RecordT(t), bound)
    ensures Traversal(reg, t) == OwnVisits(reg, t)
    ensures FieldsBelow(reg, Traversal(reg, t), Depth(reg, t)) && FieldsWritable(reg, Traversal(reg, t), Depth(reg, t))
    ensures NamesDistinct(Traversal(reg, t))
  {
    TraversalFieldsBelow(reg, t);
    assert BasesTraversal(reg, [], Depth(reg, t)) == [];
    assert UniqueNames(Fields(reg, t));
  }

  /** With each own visit, the same holds one level down: a member's type is writable. */
  lemma TailWritable(reg: Registry, vs: seq<Visit>, bound: nat)
    requires WellFormed(reg) && vs != [] && FieldsBelow(reg, vs, bound) && FieldsWritable(reg, vs, bound)
    ensures FieldsBelow(reg, vs[1..], bound) && FieldsWritable(reg, vs[1..], bound)
  {
    forall k | 0 <= k < |vs[1..]| ensures RecordsBelow(reg, vs[1..][k].ty, bound) && Writable(reg, vs[1..][k].ty, bound) {
      assert vs[1..][k] == vs[k + 1];
    }
  }

  lemma TailDistinct(vs: seq<Visit>)
    requires vs != [] && NamesDistinct(vs)
    ensures NamesDistinct(vs[1..])
    ensures forall k :: 0 <= k < |vs[1..]| ==> vs[1..][k].name != vs[0].name
  {
    forall k | 0 <= k < |vs[1..]| ensures vs[1..][k].name != vs[0].name {
      assert vs[1..][k] == vs[k + 1];
    }
  }

  lemma TailTyped(reg: Registry, vs: seq<Visit>, slots: map<Slot, Value>, bound: nat)
    requires WellFormed(reg) && vs != [] && FieldsBelow(reg, vs, bound) && SlotsTyped(reg, vs, slots)
    ensures FieldsBelow(reg, vs[1..], bound) && SlotsTyped(reg, vs[1..], slots)
  {
    forall k | 0 <= k < |vs[1..]|
      ensures RecordsBelow(reg, vs[1..][k].ty, bound) && vs[1..][k].Slot() in slots
      ensures HasType(reg, slots[vs[1..][k].Slot()], vs[1..][k].ty)
    {
      assert vs[1..][k] == vs[k + 1];
    }
  }

  // ---------------------------------------------------------------------------------------------
  // Writing

  /** Every visited name of `doc` holds the document of its slot in `slots`. */
  predicate DocHolds(reg: Registry, vs: seq<Visit>, slots: map<Slot, Value>, doc: Json, bound: nat)
    requires WellFormed(reg) && FieldsBelow(reg, vs, bound) && SlotsTyped(reg, vs, slots)
  {
    (vs != [] ==> doc.JObject?) &&
    forall k :: 0 <= k < |vs| ==>
      Get(doc.members, vs[k].name) == Some(ToJsonValue(reg, vs[k].ty, slots[vs[k].Slot()], bound))
  }

  lemma DocHoldsTail(reg: Registry, vs: seq<Visit>, slots: map<Slot, Value>, doc: Json, bound: nat)
    requires WellFormed(reg) && vs != [] && FieldsBelow(reg, vs, bound) && SlotsTyped(reg, vs, slots)
    requires DocHolds(reg, vs, slots, doc, bound)
    ensures FieldsBelow(reg, vs[1..], bound) && SlotsTyped(reg, vs[1..], slots)
    ensures DocHolds(reg, vs[1..], slots, doc, bound)
  {
    TailTyped(reg, vs, slots, bound);
    var rest := vs[1..];
    forall k | 0 <= k < |rest|
      ensures Get(doc.members, rest[k].name) == Some(ToJsonValue(reg, rest[k].ty, slots[rest[k].Slot()], bound))
    {
      assert rest[k] == vs[k + 1];
    }
  }

  /** With distinct names, every visited name holds its member's document after the writes, and
      every other key keeps what the document held before. */
  lemma {:induction false} WriteFieldsLookup(reg: Registry, vs: seq<Visit>, slots: map<Slot, Value>, doc: Json, bound: nat)
    requires WellFormed(reg) && FieldsBelow(reg, vs, bound) && SlotsTyped(reg, vs, slots)
    requires doc.JNull? || doc.JObject?
    requires NamesDistinct(vs)
    ensures DocHolds(reg, vs, slots, WriteFields(reg, vs, slots, doc, bound), bound)
    ensures forall key ::
      (WriteFields(reg, vs, slots, doc, bound).JObject? && forall k :: 0 <= k < |vs| ==> vs[k].name != key) ==>
        Get(WriteFields(reg, vs, slots, doc, bound).members, key) ==
          if doc.JNull? then None else Get(doc.members, key)
    decreases |vs|
  {
    if vs != [] {
      var x := ToJsonValue(reg, vs[0].ty, slots[vs[0].Slot()], bound);
      var next := SetKey(doc, vs[0].name, x);
      TailTyped(reg, vs, slots, bound);
      TailDistinct(vs);
      WriteFieldsLookup(reg, vs[1..], slots, next, bound);
      var r := WriteFields(reg, vs, slots, doc, bound);
      assert r == WriteFields(reg, vs[1..], slots, next, bound);
      assert r.JObject?;
      forall k | 0 <= k < |vs| ensures Get(r.members, vs[k].name) == Some(ToJsonValue(reg, vs[k].ty, slots[vs[k].Slot()], bound)) {
        if k > 0 {
          assert vs[k] == vs[1..][k - 1];
        }
      }
      forall key | (forall k :: 0 <= k < |vs| ==> vs[k].name != key)
        ensures Get(r.members, key) == if doc.JNull? then None else Get(doc.members, key)
      {
        forall k | 0 <= k < |vs[1..]| ensures vs[1..][k].name != key {
          assert vs[1..][k] == vs[k + 1];
        }
        assert vs[0].name != key;
      }
    }
  }

  /** The writes keep an object's members in key order, as a `std::map` does. */
  lemma {:induction false} WriteFieldsSorted(reg: Registry, vs: seq<Visit>, slots: map<Slot, Value>, doc: Json, bound: nat)
    requires WellFormed(reg) && FieldsBelow(reg, vs, bound) && SlotsTyped(reg, vs, slots)
    requires doc.JNull? || (doc.JObject? && Sorted(doc.members))
    ensures var r := WriteFields(reg, vs, slots, doc, bound); r.JNull? || (r.JObject? && Sorted(r.members))
    decreases |vs|
  {
    if vs != [] {
      TailTyped(reg, vs, slots, bound);
      WriteFieldsSorted(reg, vs[1..], slots, SetKey(doc, vs[0].name, ToJsonValue(reg, vs[0].ty, slots[vs[0].Slot()], bound)), bound);
    }
  }

  // ---------------------------------------------------------------------------------------------
  // Reading

  /** `ConvertAll` converts the items in order: each value it yields is the conversion of the item
      at its position, and a failure is the failure of the next item. */
  lemma {:induction false} ConvertAllInOrder(reg: Registry, e: FieldType, items: seq<Json>, bound: nat)
    requires WellFormed(reg) && RecordsBelow(reg, e, bound)
    ensures var r := ConvertAll(reg, e, items, bound);
      forall k :: 0 <= k < |r.0| ==> Convert(reg, e, items[k], bound) == Ok(r.0[k])
    ensures var r := ConvertAll(reg, e, items, bound);
      r.1.Some? ==> |r.0| < |items| && Convert(reg, e, items[|r.0|], bound) == Err(r.1.value)
    decreases |items|
  {
    if items != [] {
      ConvertAllInOrder(reg, e, items[1..], bound);
      var r := ConvertAll(reg, e, items, bound);
      var rest := ConvertAll(reg, e, items[1..], bound);
      if Convert(reg, e, items[0], bound).Ok? {
        assert r == ([Convert(reg, e, items[0], bound).value] + rest.0, rest.1);
        forall k | 0 <= k < |r.0| ensures Convert(reg, e, items[k], bound) == Ok(r.0[k]) {
          if k > 0 {
            assert items[k] == items[1..][k - 1];
          }
        }
        if r.1.Some? {
          assert items[|r.0|] == items[1..][|rest.0|];
        }
      }
    }
  }

  /** Reading an existing object succeeds only if every visited name is in the document and every
      C array visited has a document of its exact size. */
  lemma {:induction false} SuccessNeedsKeys(reg: Registry, vs: seq<Visit>, doc: Json, slots: map<Slot, Value>, bound: nat)
    requires WellFormed(reg) && FieldsBelow(reg, vs, bound)
    requires forall k :: 0 <= k < |vs| ==> vs[k].Slot() in slots
    ensures UpdateFields(reg, vs, doc, slots, bound).1.None? ==>
      forall k :: 0 <= k < |vs| ==>
        Lookup(doc, vs[k].name).Ok? &&
        (vs[k].ty.CArrayT? ==> Size(Lookup(doc, vs[k].name).value) == vs[k].ty.n)
    decreases |vs|
  {
    if vs != [] {
      var step := ReadFieldInto(reg, vs[0], doc, slots, bound);
      UpdateFieldsStep(reg, vs, 0, doc, slots, bound);
      assert vs[0..] == vs;
      if step.1.None? {
        forall j | 0 <= j < |vs[1..]| ensures vs[1..][j].Slot() in step.0 {
          assert vs[1..][j] == vs[j + 1];
        }
        SuccessNeedsKeys(reg, vs[1..], doc, step.0, bound);
        if UpdateFields(reg, vs, doc, slots, bound).1.None? {
          forall k | 0 <= k < |vs|
            ensures Lookup(doc, vs[k].name).Ok? && (vs[k].ty.CArrayT? ==> Size(Lookup(doc, vs[k].name).value) == vs[k].ty.n)
          {
            if k > 0 {
              assert vs[k] == vs[1..][k - 1];
            }
          }
        }
      }
    }
  }

  /** `from_json` on a document that is not an object throws at the first visited field, before
      anything is assigned. */
  lemma FromJsonNeedsObject(reg: Registry, t: TypeId, doc: Json, slots: map<Slot, Value>)
    requires WellFormed(reg) && t in reg.structs && HasType(reg, RecordV(slots), RecordT(t))
    requires !doc.JObject? && Traversal(reg, t) != []
    ensures ReadInto(reg, t, doc, slots) == (slots, Some(NotAnObject(Traversal(reg, t)[0].name)))
  {
  }

  /** `from_json` into a C array field whose document has the wrong size throws before anything
      of the array is assigned: the first visited field shows it. */
  lemma FromJsonSizeMismatch(reg: Registry, t: TypeId, doc: Json, slots: map<Slot, Value>)
    requires WellFormed(reg) && t in reg.structs && HasType(reg, RecordV(slots), RecordT(t))
    requires Traversal(reg, t) != [] && Traversal(reg, t)[0].ty.CArrayT?
    requires Lookup(doc, Traversal(reg, t)[0].name).Ok?
    requires Size(Lookup(doc, Traversal(reg, t)[0].name).value) != Traversal(reg, t)[0].ty.n
    ensures ReadInto(reg, t, doc, slots) ==
      (slots, Some(ArraySizeMismatch(Traversal(reg, t)[0].ty.n, Size(Lookup(doc, Traversal(reg, t)[0].name).value))))
  {
    var v := Traversal(reg, t)[0];
    assert slots[v.Slot() := slots[v.Slot()]] == slots;
  }

  /** Reading in place and reading into a fresh object make the same member reads: they fail
      together with the same failure, and on success every visited slot holds the same value, the
      in-place read leaves every other slot alone and the fresh object has exactly the visited
      slots besides what it started with. */
  lemma {:induction false} InPlaceAgreesWithFresh(reg: Registry, vs: seq<Visit>, doc: Json, cur: map<Slot, Value>, acc: map<Slot, Value>, bound: nat)
    requires WellFormed(reg) && FieldsBelow(reg, vs, bound)
    requires forall k :: 0 <= k < |vs| ==> vs[k].Slot() in cur
    ensures var u := UpdateFields(reg, vs, doc, cur, bound); var c := ConvertFields(reg, vs, doc, acc, bound);
      (u.1.None? <==> c.Ok?) && (c.Err? ==> u.1 == Some(c.error))
    ensures var u := UpdateFields(reg, vs, doc, cur, bound); var c := ConvertFields(reg, vs, doc, acc, bound);
      c.Ok? ==>
        c.value.Keys == acc.Keys + SlotSet(vs) &&
        (forall s :: s in SlotSet(vs) ==> u.0[s] == c.value[s]) &&
        (forall s :: s in cur && s !in SlotSet(vs) ==> u.0[s] == cur[s]) &&
        (forall s :: s in acc && s !in SlotSet(vs) ==> c.value[s] == acc[s])
    decreases |vs|
  {
    if vs != [] {
      var v := vs[0];
      var rest := vs[1..];
      UpdateFieldsStep(reg, vs, 0, doc, cur, bound);
      assert vs[0..] == vs;
      assert SlotSet(vs) == {v.Slot()} + SlotSet(rest) by {
        assert vs == [v] + rest;
      }
      match Lookup(doc, v.name)
      case Err(_) =>
      case Ok(sub) =>
        var m := ReadMember(reg, v.ty, sub, bound);
        if m.Whole? {
          var cur1 := cur[v.Slot() := m.v];
          var acc1 := acc[v.Slot() := m.v];
          forall j | 0 <= j < |rest| ensures rest[j].Slot() in cur1 {
            assert rest[j] == vs[j + 1];
          }
          InPlaceAgreesWithFresh(reg, rest, doc, cur1, acc1, bound);
          assert UpdateFields(reg, vs, doc, cur, bound) == UpdateFields(reg, rest, doc, cur1, bound);
          assert ConvertFields(reg, vs, doc, acc, bound) == ConvertFields(reg, rest, doc, acc1, bound);
        }
    }
  }

  /** `from_json` into an object of type `t` agrees with `get<T>()`: it throws exactly when
      converting the document to a `T` does, with the same failure, and on success the object
      holds the converted value. */
  lemma FromJsonAgreesWithGet(reg: Registry, t: TypeId, doc: Json, slots: map<Slot, Value>)
    requires WellFormed(reg) && t in reg.structs && HasType(reg, RecordV(slots), RecordT(t))
    ensures var r := ReadInto(reg, t, doc, slots); var c := Convert(reg, RecordT(t), doc, Depth(reg, t) + 1);
      (r.1.None? <==> c.Ok?) && (c.Err? ==> r.1 == Some(c.error)) && (c.Ok? ==> RecordV(r.0) == c.value)
  {
    var vs := Traversal(reg, t);
    var d := Depth(reg, t);
    TraversalFieldsBelow(reg, t);
    RecordSlotsTyped(reg, t, RecordV(slots));
    InPlaceAgreesWithFresh(reg, vs, doc, slots, map[], d);
    var u := UpdateFields(reg, vs, doc, slots, d);
    var f := ConvertFields(reg, vs, doc, map[], d);
    assert ReadInto(reg, t, doc, slots) == u;
    ConvertRecordFields(reg, t, doc);
    if f.Ok? {
      SlotSetOfTraversal(reg, t);
      SameSlots(u.0, f.value, SlotSet(vs));
    }
  }

  /** `get<T>()` on a record type reads the visited fields into a fresh object. */
  lemma ConvertRecordFields(reg: Registry, t: TypeId, doc: Json)
    requires WellFormed(reg) && t in reg.structs
    ensures FieldsBelow(reg, Traversal(reg, t), Depth(reg, t))
    ensures var f := ConvertFields(reg, Traversal(reg, t), doc, map[], Depth(reg, t));
      Convert(reg, RecordT(t), doc, Depth(reg, t) + 1) == if f.Ok? then Ok(RecordV(f.value)) else Err(f.error)
  {
    TraversalFieldsBelow(reg, t);
  }

  /** The slots of a traversal are the slots of its type. */
  lemma SlotSetOfTraversal(reg: Registry, t: TypeId)
    requires WellFormed(reg) && t in reg.structs
    ensures SlotSet(Traversal(reg, t)) == SlotsOf(reg, t)
  {
  }

  // ---------------------------------------------------------------------------------------------
  // Round trip

  /** Converting the document written for a value of type `ty` gives the value back. */
  lemma {:induction false} ConvertRoundTrip(reg: Registry, ty: FieldType, v: Value, bound: nat)
    requires WellFormed(reg) && DistinctFieldNames(reg) && RecordsBelow(reg, ty, bound) && HasType(reg, v, ty)
    requires Writable(reg, ty, bound)
    ensures Convert(reg, ty, ToJsonValue(reg, ty, v, bound), bound) == Ok(v)
    decreases bound, TypeSize(ty), 1
  {
    match ty
    case BoolT =>
    case IntT =>
    case DoubleT =>
    case CArrayT(e, n) => ArrayRoundTrip(reg, e, n, v, bound);
    case StdArrayT(e, n) => ArrayRoundTrip(reg, e, n, v, bound);
    case RecordT(id) => RecordRoundTrip(reg, id, v, bound);
  }

  lemma {:induction false} RecordRoundTrip(reg: Registry, id: TypeId, v: Value, bound: nat)
    requires WellFormed(reg) && DistinctFieldNames(reg) && RecordsBelow(reg, RecordT(id), bound) && HasType(reg, v, RecordT(id))
    requires Writable(reg, RecordT(id), bound)
    ensures Convert(reg, RecordT(id), ToJsonValue(reg, RecordT(id), v, bound), bound) == Ok(v)
    decreases bound, TypeSize(RecordT(id)), 0
  {
    WritableNamesDistinct(reg, id, bound);
    var vs := Traversal(reg, id);
    var d := Depth(reg, id);
    TraversalFieldsBelow(reg, id);
    RecordSlotsTyped(reg, id, v);
    var doc := WriteFields(reg, vs, v.slots, JNull, d);
    WriteFieldsLookup(reg, vs, v.slots, JNull, d);
    ConvertFieldsRoundTrip(reg, vs, doc, map[], v.slots, d);
    var f := ConvertFields(reg, vs, doc, map[], d);
    SameSlots(f.value, v.slots, SlotSet(vs));
  }

  lemma {:induction false} ArrayRoundTrip(reg: Registry, e: FieldType, n: nat, v: Value, bound: nat)
    requires WellFormed(reg) && DistinctFieldNames(reg) && RecordsBelow(reg, e, bound) && Writable(reg, e, bound)
    requires v.ArrayV? && |v.elems| == n && forall k :: 0 <= k < n ==> HasType(reg, v.elems[k], e)
    ensures ConvertArray(reg, e, n, JArray(JsonItems(reg, e, v.elems, bound)), bound) == Ok(v)
    decreases bound, TypeSize(e) + 1, 0
  {
    var items := JsonItems(reg, e, v.elems, bound);
    ConvertAllRoundTrip(reg, e, v.elems, bound);
    assert items[..n] == items;
  }

  /** Converting the items written for `elems` gives `elems` back, with no failure. */
  lemma {:induction false} ConvertAllRoundTrip(reg: Registry, e: FieldType, elems: seq<Value>, bound: nat)
    requires WellFormed(reg) && DistinctFieldNames(reg) && RecordsBelow(reg, e, bound) && Writable(reg, e, bound)
    requires forall k :: 0 <= k < |elems| ==> HasType(reg, elems[k], e)
    ensures ConvertAll(reg, e, JsonItems(reg, e, elems, bound), bound) == (elems, None)
    decreases bound, TypeSize(e), |elems| + 1
  {
    if elems != [] {
      JsonItemsCons(reg, e, elems, bound);
      ConvertRoundTrip(reg, e, elems[0], bound);
      ConvertAllRoundTrip(reg, e, elems[1..], bound);
      assert elems == [elems[0]] + elems[1..];
    }
  }

  /** The items written for `elems` are the first one's document, then the items of the rest. */
  lemma JsonItemsCons(reg: Registry, e: FieldType, elems: seq<Value>, bound: nat)
    requires WellFormed(reg) && RecordsBelow(reg, e, bound) && elems != []
    requires forall k :: 0 <= k < |elems| ==> HasType(reg, elems[k], e)
    ensures HasType(reg, elems[0], e) && forall k :: 0 <= k < |elems[1..]| ==> HasType(reg, elems[1..][k], e)
    ensures var items := JsonItems(reg, e, elems, bound);
      items != [] && items[0] == ToJsonValue(reg, e, elems[0], bound) && items[1..] == JsonItems(reg, e, elems[1..], bound)
  {
    assert forall k :: 0 <= k < |elems[1..]| ==> elems[1..][k] == elems[k + 1];
  }

  /** Reading a member from the document written for it takes the whole value. */
  lemma {:induction false} ReadMemberRoundTrip(reg: Registry, ty: FieldType, v: Value, bound: nat)
    requires WellFormed(reg) && DistinctFieldNames(reg) && RecordsBelow(reg, ty, bound) && HasType(reg, v, ty)
    requires Writable(reg, ty, bound)
    ensures ReadMember(reg, ty, ToJsonValue(reg, ty, v, bound), bound) == Whole(v)
    decreases bound, TypeSize(ty), 2
  {
    match ty
    case CArrayT(e, n) => ConvertAllRoundTrip(reg, e, v.elems, bound);
    case _ => ConvertRoundTrip(reg, ty, v, bound);
  }

  /** Every visited slot is a key of `m`. */
  predicate SlotsIn(vs: seq<Visit>, m: map<Slot, Value>) {
    forall k :: 0 <= k < |vs| ==> vs[k].Slot() in m
  }

  lemma SlotsInTail(vs: seq<Visit>, m: map<Slot, Value>, s: Slot, x: Value)
    requires vs != [] && SlotsIn(vs, m)
    ensures SlotsIn(vs[1..], m[s := x])
  {
    forall k | 0 <= k < |vs[1..]| ensures vs[1..][k].Slot() in m[s := x] {
      assert vs[1..][k] == vs[k + 1];
    }
  }

  /** The slots of a list of visits are the first one's and those of the rest. */
  lemma SlotSetCons(vs: seq<Visit>)
    requires vs != []
    ensures SlotSet(vs) == {vs[0].Slot()} + SlotSet(vs[1..])
  {
    assert vs == [vs[0]] + vs[1..];
  }

  /** The first visited member of such a document reads back whole, as the value of its slot. */
  lemma ReadHeadRoundTrip(reg: Registry, vs: seq<Visit>, doc: Json, slots: map<Slot, Value>, bound: nat)
    requires WellFormed(reg) && DistinctFieldNames(reg) && vs != [] && FieldsBelow(reg, vs, bound) && SlotsTyped(reg, vs, slots)
    requires FieldsWritable(reg, vs, bound)
    requires DocHolds(reg, vs, slots, doc, bound)
    ensures RecordsBelow(reg, vs[0].ty, bound) && vs[0].Slot() in slots
    ensures Lookup(doc, vs[0].name) == Ok(ToJsonValue(reg, vs[0].ty, slots[vs[0].Slot()], bound))
    ensures ReadMember(reg, vs[0].ty, Lookup(doc, vs[0].name).value, bound) == Whole(slots[vs[0].Slot()])
    decreases bound, SumSize(vs), 3
  {
    ReadMemberRoundTrip(reg, vs[0].ty, slots[vs[0].Slot()], bound);
  }

  /** Reading into a fresh object from a document in which every visited name holds the document
      of its slot in `slots` succeeds, and every visited slot takes its value from `slots`. */
  lemma {:induction false} ConvertFieldsRoundTrip(reg: Registry, vs: seq<Visit>, doc: Json, acc: map<Slot, Value>, slots: map<Slot, Value>, bound: nat)
    requires WellFormed(reg) && DistinctFieldNames(reg) && FieldsBelow(reg, vs, bound) && SlotsTyped(reg, vs, slots)
    requires FieldsWritable(reg, vs, bound)
    requires DocHolds(reg, vs, slots, doc, bound)
    ensures var r := ConvertFields(reg, vs, doc, acc, bound);
      r.Ok? && r.value.Keys == acc.Keys + SlotSet(vs) &&
      (forall s :: s in SlotSet(vs) ==> r.value[s] == slots[s]) &&
      (forall s :: s in acc && s !in SlotSet(vs) ==> r.value[s] == acc[s])
    decreases bound, SumSize(vs), |vs| + 3
  {
    if vs != [] {
      var v := vs[0];
      ReadHeadRoundTrip(reg, vs, doc, slots, bound);
      DocHoldsTail(reg, vs, slots, doc, bound);
      TailWritable(reg, vs, bound);
      var acc1 := acc[v.Slot() := slots[v.Slot()]];
      ConvertFieldsRoundTrip(reg, vs[1..], doc, acc1, slots, bound);
      assert ConvertFields(reg, vs, doc, acc, bound) == ConvertFields(reg, vs[1..], doc, acc1, bound);
      SlotSetCons(vs);
    }
  }

  /** Reading in place from a document in which every visited name holds the document of its slot
      in `slots` succeeds, every visited slot takes its value from `slots`, and no other slot
      changes. */
  lemma {:induction false} UpdateFieldsRoundTrip(reg: Registry, vs: seq<Visit>, doc: Json, cur: map<Slot, Value>, slots: map<Slot, Value>, bound: nat)
    requires WellFormed(reg) && DistinctFieldNames(reg) && FieldsBelow(reg, vs, bound) && SlotsTyped(reg, vs, slots)
    requires FieldsWritable(reg, vs, bound)
    requires SlotsIn(vs, cur)
    requires DocHolds(reg, vs, slots, doc, bound)
    ensures var r := UpdateFields(reg, vs, doc, cur, bound);
      r.1 == None &&
      (forall s :: s in SlotSet(vs) ==> r.0[s] == slots[s]) &&
      (forall s :: s in cur && s !in SlotSet(vs) ==> r.0[s] == cur[s])
    decreases |vs|
  {
    if vs != [] {
      var v := vs[0];
      ReadHeadRoundTrip(reg, vs, doc, slots, bound);
      UpdateFieldsHead(reg, vs, doc, cur, bound);
      var cur1 := cur[v.Slot() := slots[v.Slot()]];
      assert ReadFieldInto(reg, v, doc, cur, bound) == (cur1, None);
      DocHoldsTail(reg, vs, slots, doc, bound);
      TailWritable(reg, vs, bound);
      SlotsInTail(vs, cur, v.Slot(), slots[v.Slot()]);
      UpdateFieldsRoundTrip(reg, vs[1..], doc, cur1, slots, bound);
      SlotSetCons(vs);
    }
  }

  /** The in-place read of `vs` is the read of its first field, then of the rest unless that one
      throws. */
  lemma UpdateFieldsHead(reg: Registry, vs: seq<Visit>, doc: Json, cur: map<Slot, Value>, bound: nat)
    requires WellFormed(reg) && FieldsBelow(reg, vs, bound) && vs != [] && SlotsIn(vs, cur)
    ensures FieldsBelow(reg, vs[1..], bound) && RecordsBelow(reg, vs[0].ty, bound) && vs[0].Slot() in cur
    ensures var step := ReadFieldInto(reg, vs[0], doc, cur, bound);
      (step.0.Keys == cur.Keys) &&
      UpdateFields(reg, vs, doc, cur, bound) ==
        if step.1.Some? then step else UpdateFields(reg, vs[1..], doc, step.0, bound)
  {
    UpdateFieldsStep(reg, vs, 0, doc, cur, bound);
    assert vs[0..] == vs;
  }

  /** `from_json(to_json(t))` on any object of the same type, starting from a null document:
      nothing throws and the object ends up equal to `t`. */
  lemma RoundTrip(reg: Registry, t: TypeId, v: Value, slots: map<Slot, Value>)
    requires WellFormed(reg) && DistinctFieldNames(reg) && t in reg.structs && RecordWritable(reg, t)
    requires HasType(reg, v, RecordT(t)) && HasType(reg, RecordV(slots), RecordT(t))
    ensures ReadInto(reg, t, WriteInto(reg, t, v, JNull), slots) == (v.slots, None)
  {
    var vs := Traversal(reg, t);
    var d := Depth(reg, t);
    WritableNamesDistinct(reg, t, d + 1);
    RecordSlotsTyped(reg, t, v);
    RecordSlotsTyped(reg, t, RecordV(slots));
    WrittenNames(reg, t, v);
    var doc := WriteInto(reg, t, v, JNull);
    UpdateFieldsRoundTrip(reg, vs, doc, slots, v.slots, d);
    SameSlots(UpdateFields(reg, vs, doc, slots, d).0, v.slots, SlotSet(vs));
  }

  /** In the document `to_json(t)` writes into a null document, every visited name holds the
      document of its field. */
  lemma WrittenNames(reg: Registry, t: TypeId, v: Value)
    requires WellFormed(reg) && DistinctFieldNames(reg) && t in reg.structs && RecordWritable(reg, t) && HasType(reg, v, RecordT(t))
    ensures FieldsBelow(reg, Traversal(reg, t), Depth(reg, t)) && SlotsTyped(reg, Traversal(reg, t), v.slots)
    ensures DocHolds(reg, Traversal(reg, t), v.slots, WriteInto(reg, t, v, JNull), Depth(reg, t))
  {
    WritableNamesDistinct(reg, t, Depth(reg, t) + 1);
    RecordSlotsTyped(reg, t, v);
    WriteFieldsLookup(reg, Traversal(reg, t), v.slots, JNull, Depth(reg, t));
    assert WriteInto(reg, t, v, JNull) == WriteFields(reg, Traversal(reg, t), v.slots, JNull, Depth(reg, t));
  }

  lemma SameSlots(a: map<Slot, Value>, b: map<Slot, Value>, keys: set<Slot>)
    requires a.Keys == keys && b.Keys == keys && forall s :: s in keys ==> a[s] == b[s]
    ensures a == b
  {
  }

  /** `get<T>()` on the document `to_json(t)` writes into a null document gives `t`. */
  lemma GetRoundTrip(reg: Registry, t: TypeId, v: Value)
    requires WellFormed(reg) && DistinctFieldNames(reg) && t in reg.structs && RecordWritable(reg, t) && HasType(reg, v, RecordT(t))
    ensures Convert(reg, RecordT(t), WriteInto(reg, t, v, JNull), Depth(reg, t) + 1) == Ok(v)
  {
    ConvertRoundTrip(reg, RecordT(t), v, Depth(reg, t) + 1);
  }
}
