/** The JSON adapter: the document library's serializer, specialised for every visitable record
    type. `to_json` runs `ToJsonVisitor`, which sets `doc[name] = member` for every visited field
    in order; `from_json` runs `FromJsonVisitor`, which reads `doc.at(name)` into every visited
    field in order, through `get<M>()` or, for a C array, item by item in place. Members are
    converted by the same serializer again, so nested records recurse. */
module JsonVisitor {
  import opened Wrappers
  import opened Types
  import opened Visiting
  import opened Values
  import opened Json

  /** A size of field types; with the depth bound it orders the mutual recursion below. */
  function TypeSize(ty: FieldType): (n: nat)
    ensures n >= 1
  {
    match ty
    case CArrayT(e, _) => 1 + TypeSize(e)
    case StdArrayT(e, _) => 1 + TypeSize(e)
    case _ => 1
  }

  function SumSize(vs: seq<Visit>): nat {
    if vs == [] then 0 else TypeSize(vs[0].ty) + SumSize(vs[1..])
  }

  /** Every visited field type mentions only records below `bound`. */
  predicate FieldsBelow(reg: Registry, vs: seq<Visit>, bound: nat) {
    forall k :: 0 <= k < |vs| ==> RecordsBelow(reg, vs[k].ty, bound)
  }

  /** Every visited slot holds a value of the visit's declared type. */
  predicate SlotsTyped(reg: Registry, vs: seq<Visit>, slots: map<Slot, Value>)
    requires WellFormed(reg)
  {
    forall k :: 0 <= k < |vs| ==> vs[k].Slot() in slots && HasType(reg, slots[vs[k].Slot()], vs[k].ty)
  }

  function SlotSet(vs: seq<Visit>): set<Slot> {
    set v | v in vs :: v.Slot()
  }

  // ---------------------------------------------------------------------------------------------
  // Writing

  /** `json(member)`: the document the serializer builds for a value of type `ty`. Scalars become
      their JSON counterparts, both kinds of array become arrays, and a record goes through
      `to_json` on a fresh null document. */
  function ToJsonValue(reg: Registry, ty: FieldType, v: Value, bound: nat): Json
    requires WellFormed(reg) && RecordsBelow(reg, ty, bound) && HasType(reg, v, ty)
    decreases bound, TypeSize(ty), 0
  {
    match ty
    case BoolT => JBool(v.b)
    case IntT => JInt(v.i)
    case DoubleT => JReal(v.d)
    case CArrayT(e, _) => JArray(JsonItems(reg, e, v.elems, bound))
    case StdArrayT(e, _) => JArray(JsonItems(reg, e, v.elems, bound))
    case RecordT(id) =>
      TraversalFieldsBelow(reg, id);
      WriteFields(reg, Traversal(reg, id), v.slots, JNull, Depth(reg, id))
  }

  /** The items of the array document made for array elements `elems` of type `e`, in order. */
  function JsonItems(reg: Registry, e: FieldType, elems: seq<Value>, bound: nat): (r: seq<Json>)
    requires WellFormed(reg) && RecordsBelow(reg, e, bound)
    requires forall k :: 0 <= k < |elems| ==> HasType(reg, elems[k], e)
    ensures |r| == |elems|
    decreases bound, TypeSize(e), 1
  {
    seq(|elems|, k requires 0 <= k < |elems| => ToJsonValue(reg, e, elems[k], bound))
  }

  /** `ToJsonVisitor` over the visits `vs` of an object with slots `slots`: `doc[name] = member`
      for each visit in turn, starting from `doc`. */
  function WriteFields(reg: Registry, vs: seq<Visit>, slots: map<Slot, Value>, doc: Json, bound: nat): (r: Json)
    requires WellFormed(reg) && FieldsBelow(reg, vs, bound) && SlotsTyped(reg, vs, slots)
    requires doc.JNull? || doc.JObject?
    ensures vs == [] ==> r == doc
    ensures vs != [] ==> r.JObject?
    decreases bound, SumSize(vs), |vs| + 1
  {
    if vs == [] then doc
    else
      var x := ToJsonValue(reg, vs[0].ty, slots[vs[0].Slot()], bound);
      WriteFields(reg, vs[1..], slots, SetKey(doc, vs[0].name, x), bound)
  }

  /** Every visited slot of a value of record type `t` holds a value of its declared type. */
  lemma RecordSlotsTyped(reg: Registry, t: TypeId, v: Value)
    requires WellFormed(reg) && t in reg.structs && HasType(reg, v, RecordT(t))
    ensures SlotsTyped(reg, Traversal(reg, t), v.slots)
  {
    forall k | 0 <= k < |Traversal(reg, t)| ensures Traversal(reg, t)[k].Slot() in v.slots {
      assert Traversal(reg, t)[k] in Traversal(reg, t);
    }
  }

  /** What `to_json(j, t)` leaves in `j` when `j` is null or an object: `j[name] = member` for every
      visited field of `t`. */
  function WriteInto(reg: Registry, t: TypeId, v: Value, j: Json): Json
    requires WellFormed(reg) && t in reg.structs && RecordWritable(reg, t) && HasType(reg, v, RecordT(t))
    requires j.JNull? || j.JObject?
  {
    TraversalFieldsBelow(reg, t);
    RecordSlotsTyped(reg, t, v);
    WriteFields(reg, Traversal(reg, t), v.slots, j, Depth(reg, t))
  }

  /** `to_json` compiles for a member of type `ty`. `ToJsonVisitor` visits a record through a const
      reference, and a const visit of a record with reflected bases is rejected
      (`InstanceVisitCompiles`); so every record the serializer reaches, as the member itself, as an
      array element or as a member of one of those, has no reflected bases. */
  predicate Writable(reg: Registry, ty: FieldType, bound: nat)
    requires WellFormed(reg) && RecordsBelow(reg, ty, bound)
    decreases bound, TypeSize(ty)
  {
    match ty
    case RecordT(id) =>
      TraversalFieldsBelow(reg, id);
      InstanceVisitCompiles(reg, id, true) &&
      forall k :: 0 <= k < |Traversal(reg, id)| ==> Writable(reg, Traversal(reg, id)[k].ty, Depth(reg, id))
    case CArrayT(e, _) => Writable(reg, e, bound)
    case StdArrayT(e, _) => Writable(reg, e, bound)
    case _ => true
  }

  /** Every visited field type can be written. */
  predicate FieldsWritable(reg: Registry, vs: seq<Visit>, bound: nat)
    requires WellFormed(reg) && FieldsBelow(reg, vs, bound)
  {
    forall k :: 0 <= k < |vs| ==> Writable(reg, vs[k].ty, bound)
  }

  /** `to_json(j, t)` compiles for the record type `t`. */
  predicate RecordWritable(reg: Registry, t: TypeId)
    requires WellFormed(reg) && t in reg.structs
  {
    Writable(reg, RecordT(t), Depth(reg, t) + 1)
  }

  /** A reference to a document, as `ToJsonVisitor` holds one. */
  class Document {
    var value: Json

    constructor (value: Json)
      ensures this.value == value
    {
      this.value := value;
    }
  }

  /** `adl_serializer<T>::to_json(j, t)`: `ToJsonVisitor{j}` visits `t` and sets `j[name]` for each
      visited field. `operator[]` with a key on a document that is neither null nor an object
      throws before anything is written; afterwards `j` is an object and no write can fail. */
  method ToJson(reg: Registry, obj: Instance, j: Document) returns (err: Option<Error>)
    requires WellFormed(reg) && obj.ty in reg.structs && RecordWritable(reg, obj.ty) && obj.Valid(reg)
    modifies j
    ensures old(j.value).JNull? || old(j.value).JObject? ==>
      err == None && j.value == WriteInto(reg, obj.ty, obj.Contents(), old(j.value))
    ensures !(old(j.value).JNull? || old(j.value).JObject?) ==>
      j.value == old(j.value) &&
      err == if Traversal(reg, obj.ty) == [] then None else Some(NotAnObject(Traversal(reg, obj.ty)[0].name))
  {
    TraversalFieldsBelow(reg, obj.ty);
    RecordSlotsTyped(reg, obj.ty, obj.Contents());
    err := WriteVisits(reg, Traversal(reg, obj.ty), obj.slots, j, Depth(reg, obj.ty));
  }

  /** The loop of `ToJsonVisitor` over the calls `vs`, writing into `j`. */
  method WriteVisits(reg: Registry, vs: seq<Visit>, slots: map<Slot, Value>, j: Document, bound: nat) returns (err: Option<Error>)
    requires WellFormed(reg) && FieldsBelow(reg, vs, bound) && SlotsTyped(reg, vs, slots)
    modifies j
    ensures old(j.value).JNull? || old(j.value).JObject? ==>
      err == None && j.value == WriteFields(reg, vs, slots, old(j.value), bound)
    ensures !(old(j.value).JNull? || old(j.value).JObject?) ==>
      j.value == old(j.value) && err == if vs == [] then None else Some(NotAnObject(vs[0].name))
  {
    if !(j.value.JNull? || j.value.JObject?) {
      // the first `jsonValue[name]` throws; with no visit nothing is written
      return if vs == [] then None else Some(NotAnObject(vs[0].name));
    }
    ghost var start := j.value;
    assert vs[0..] == vs;
    for k := 0 to |vs|
      invariant j.value.JNull? || j.value.JObject?
      invariant WriteFields(reg, vs[k..], slots, j.value, bound) == WriteFields(reg, vs, slots, start, bound)
    {
      var x := ToJsonValue(reg, vs[k].ty, slots[vs[k].Slot()], bound);
      WriteFieldsStep(reg, vs, k, slots, j.value, x, bound);
      j.value := SetKey(j.value, vs[k].name, x);
    }
    assert vs[|vs|..] == [];
    return None;
  }

  /** Writing the `k`-th member `x`, and then the rest, is the rest of the writes from `k` on. */
  lemma WriteFieldsStep(reg: Registry, vs: seq<Visit>, k: nat, slots: map<Slot, Value>, doc: Json, x: Json, bound: nat)
    requires WellFormed(reg) && FieldsBelow(reg, vs, bound) && SlotsTyped(reg, vs, slots)
    requires doc.JNull? || doc.JObject?
    requires k < |vs| && x == ToJsonValue(reg, vs[k].ty, slots[vs[k].Slot()], bound)
    ensures FieldsBelow(reg, vs[k..], bound) && SlotsTyped(reg, vs[k..], slots)
    ensures FieldsBelow(reg, vs[k + 1..], bound) && SlotsTyped(reg, vs[k + 1..], slots)
    ensures WriteFields(reg, vs[k..], slots, doc, bound) == WriteFields(reg, vs[k + 1..], slots, SetKey(doc, vs[k].name, x), bound)
  {
    assert vs[k..][1..] == vs[k + 1..];
    assert vs[k..][0] == vs[k];
  }

  // ---------------------------------------------------------------------------------------------
  // Reading

  /** The integer `static_cast<int>` makes of a floating point number: truncation toward zero. */
  function Truncate(r: real): int {
    if r >= 0.0 then r.Floor else -((-r).Floor)
  }

  /** `doc.get<M>()` for a member of type `M`. A `bool` needs a boolean; an `int` takes an integer,
      a floating point number (truncated) or a boolean; a `double` takes an integer or a floating
      point number; an array type needs an array with at least `N` items, of which the first `N`
      are converted in order; a record type goes through `from_json` on a fresh object. Anything
      else throws. */
  function Convert(reg: Registry, ty: FieldType, doc: Json, bound: nat): Result<Value, Error>
    requires WellFormed(reg) && RecordsBelow(reg, ty, bound)
    decreases bound, TypeSize(ty), 1
  {
    match ty
    case BoolT => if doc.JBool? then Ok(BoolV(doc.b)) else Err(DocTypeMismatch)
    case IntT =>
      (match doc
       case JInt(i) => Ok(IntV(i))
       case JReal(x) => Ok(IntV(Truncate(x)))
       case JBool(b) => Ok(IntV(if b then 1 else 0))
       case _ => Err(DocTypeMismatch))
    case DoubleT =>
      (match doc
       case JInt(i) => Ok(DoubleV(i as real))
       case JReal(x) => Ok(DoubleV(x))
       case _ => Err(DocTypeMismatch))
    case StdArrayT(e, n) => ConvertArray(reg, e, n, doc, bound)
    case CArrayT(e, n) => ConvertArray(reg, e, n, doc, bound)
    case RecordT(id) =>
      TraversalFieldsBelow(reg, id);
      (match ConvertFields(reg, Traversal(reg, id), doc, map[], Depth(reg, id))
       case Ok(slots) => Ok(RecordV(slots))
       case Err(x) => Err(x))
  }

  /** `get<std::array<M, N>>()`: not an array throws; `at(k)` is converted for `k` in `0..N-1` in
      order, and `at(k)` past the last item throws. Items beyond `N` are ignored. */
  function ConvertArray(reg: Registry, e: FieldType, n: nat, doc: Json, bound: nat): Result<Value, Error>
    requires WellFormed(reg) && RecordsBelow(reg, e, bound)
    decreases bound, TypeSize(e) + 1, 0
  {
    if !doc.JArray? then Err(DocTypeMismatch)
    else
      var items := doc.items;
      var used := if |items| < n then |items| else n;
      var r := ConvertAll(reg, e, items[..used], bound);
      if r.1.Some? then Err(r.1.value)
      else if |items| < n then Err(IndexOutOfRange(|items|, |items|))
      else Ok(ArrayV(r.0))
  }

  /** Converting `items` one after the other: the values converted before the first failure, and
      that failure if there is one. */
  function ConvertAll(reg: Registry, e: FieldType, items: seq<Json>, bound: nat): (r: (seq<Value>, Option<Error>))
    requires WellFormed(reg) && RecordsBelow(reg, e, bound)
    ensures |r.0| <= |items|
    ensures r.1.None? ==> |r.0| == |items|
    decreases bound, TypeSize(e), |items| + 1
  {
    if items == [] then ([], None)
    else
      match Convert(reg, e, items[0], bound)
      case Err(x) => ([], Some(x))
      case Ok(v) =>
        var rest := ConvertAll(reg, e, items[1..], bound);
        ([v] + rest.0, rest.1)
  }

  /** The outcome of `fromJson(member, doc)` for one member: it took a whole new value; it is a C
      array whose first items were assigned before an item failed to convert; or it was left
      alone because the read failed. */
  datatype MemberRead = Whole(v: Value) | Partial(prefix: seq<Value>, e: Error) | Failed(e: Error)

  /** `fromJson(member, doc)`: `member = doc.get<M>()`, or for a C array `M[N]` the size check
      followed by `arr[index++] = item.get<M>()` for each item of the document in order. */
  function ReadMember(reg: Registry, ty: FieldType, doc: Json, bound: nat): MemberRead
    requires WellFormed(reg) && RecordsBelow(reg, ty, bound)
    decreases bound, TypeSize(ty), 2
  {
    match ty
    case CArrayT(e, n) =>
      if Size(doc) != n then Failed(ArraySizeMismatch(n, Size(doc)))
      else
        var r := ConvertAll(reg, e, Items(doc), bound);
        if r.1.None? then Whole(ArrayV(r.0)) else Partial(r.0, r.1.value)
    case _ =>
      match Convert(reg, ty, doc, bound)
      case Ok(v) => Whole(v)
      case Err(x) => Failed(x)
  }

  /** The member's value after the read, from its value `cur` before. */
  function Apply(m: MemberRead, cur: Value): Value {
    match m
    case Whole(v) => v
    case Partial(p, _) =>
      if cur.ArrayV? && |p| <= |cur.elems| then ArrayV(p + cur.elems[|p|..]) else cur
    case Failed(_) => cur
  }

  function ErrorOf(m: MemberRead): Option<Error> {
    match m
    case Whole(_) => None
    case Partial(_, x) => Some(x)
    case Failed(x) => Some(x)
  }

  /** `FromJsonVisitor` on a fresh object (the one `get<T>()` fills and returns): every visit in
      turn reads `doc.at(name)` into its slot of `acc`; the first failure throws, and the object is
      then discarded. */
  function ConvertFields(reg: Registry, vs: seq<Visit>, doc: Json, acc: map<Slot, Value>, bound: nat): Result<map<Slot, Value>, Error>
    requires WellFormed(reg) && FieldsBelow(reg, vs, bound)
    decreases bound, SumSize(vs), |vs| + 2
  {
    if vs == [] then Ok(acc)
    else
      match Lookup(doc, vs[0].name)
      case Err(x) => Err(x)
      case Ok(sub) =>
        match ReadMember(reg, vs[0].ty, sub, bound)
        case Whole(v) => ConvertFields(reg, vs[1..], doc, acc[vs[0].Slot() := v], bound)
        case Partial(_, x) => Err(x)
        case Failed(x) => Err(x)
  }

  /** One call of `FromJsonVisitor` on an existing object: the slot of `v` after reading
      `doc.at(name)` into it, and the failure if it throws. */
  function ReadFieldInto(reg: Registry, v: Visit, doc: Json, slots: map<Slot, Value>, bound: nat): (r: (map<Slot, Value>, Option<Error>))
    requires WellFormed(reg) && RecordsBelow(reg, v.ty, bound) && v.Slot() in slots
    ensures r.0.Keys == slots.Keys
  {
    match Lookup(doc, v.name)
    case Err(x) => (slots, Some(x))
    case Ok(sub) =>
      var m := ReadMember(reg, v.ty, sub, bound);
      (slots[v.Slot() := Apply(m, slots[v.Slot()])], ErrorOf(m))
  }

  /** `FromJsonVisitor` over the visits `vs` of an existing object: each visit in turn, stopping at
      the first failure with everything assigned so far kept. */
  function UpdateFields(reg: Registry, vs: seq<Visit>, doc: Json, slots: map<Slot, Value>, bound: nat): (r: (map<Slot, Value>, Option<Error>))
    requires WellFormed(reg) && FieldsBelow(reg, vs, bound)
    requires forall k :: 0 <= k < |vs| ==> vs[k].Slot() in slots
    ensures r.0.Keys == slots.Keys
  {
    if vs == [] then (slots, None)
    else
      var step := ReadFieldInto(reg, vs[0], doc, slots, bound);
      if step.1.Some? then step
      else UpdateFields(reg, vs[1..], doc, step.0, bound)
  }

  /** What `from_json(j, t)` leaves in an object of record type `t` with slots `slots`, and the
      failure if it throws. */
  function ReadInto(reg: Registry, t: TypeId, doc: Json, slots: map<Slot, Value>): (map<Slot, Value>, Option<Error>)
    requires WellFormed(reg) && t in reg.structs && HasType(reg, RecordV(slots), RecordT(t))
  {
    TraversalFieldsBelow(reg, t);
    RecordSlotsTyped(reg, t, RecordV(slots));
    UpdateFields(reg, Traversal(reg, t), doc, slots, Depth(reg, t))
  }

  /** `adl_serializer<T>::from_json(j, t)`: `FromJsonVisitor{j}` visits `t`, reading `j.at(name)`
      into each visited field in place; the first failure throws and leaves the fields assigned so
      far. The object stays a well-typed value of its type either way. */
  method FromJson(reg: Registry, doc: Json, obj: Instance) returns (err: Option<Error>)
    requires WellFormed(reg) && DistinctFieldNames(reg) && obj.ty in reg.structs && obj.Valid(reg)
    modifies obj
    ensures (obj.slots, err) == ReadInto(reg, obj.ty, doc, old(obj.slots))
    ensures obj.Valid(reg)
  {
    TraversalFieldsBelow(reg, obj.ty);
    RecordSlotsTyped(reg, obj.ty, obj.Contents());
    TraversalSlotsDetermineVisits(reg, obj.ty);
    err := ReadVisits(reg, Traversal(reg, obj.ty), doc, obj, Depth(reg, obj.ty));
    TypedRecord(reg, obj.ty, obj.slots);
  }

  /** A slot map with exactly the visited slots of `t`, each typed, is a value of `t`. */
  lemma TypedRecord(reg: Registry, t: TypeId, slots: map<Slot, Value>)
    requires WellFormed(reg) && t in reg.structs
    requires slots.Keys == SlotsOf(reg, t) && SlotsTyped(reg, Traversal(reg, t), slots)
    ensures HasType(reg, RecordV(slots), RecordT(t))
  {
  }

  /** The loop of `FromJsonVisitor` over the calls `vs`, reading into `obj`. */
  method ReadVisits(reg: Registry, vs: seq<Visit>, doc: Json, obj: Instance, bound: nat) returns (err: Option<Error>)
    requires WellFormed(reg) && DistinctFieldNames(reg) && FieldsBelow(reg, vs, bound) && SlotsTyped(reg, vs, obj.slots)
    requires SlotsDetermineVisits(vs)
    modifies obj
    ensures (obj.slots, err) == UpdateFields(reg, vs, doc, old(obj.slots), bound)
    ensures obj.slots.Keys == old(obj.slots).Keys && SlotsTyped(reg, vs, obj.slots)
  {
    assert vs[0..] == vs;
    for k := 0 to |vs|
      invariant obj.slots.Keys == old(obj.slots).Keys && SlotsTyped(reg, vs, obj.slots)
      invariant UpdateFields(reg, vs[k..], doc, obj.slots, bound) == UpdateFields(reg, vs, doc, old(obj.slots), bound)
    {
      UpdateFieldsStep(reg, vs, k, doc, obj.slots, bound);
      FieldStepTyped(reg, vs, k, doc, obj.slots, bound);
      err := ReadVisit(reg, vs[k], doc, obj, bound);
      if err.Some? {
        return;
      }
    }
    return None;
  }

  /** One call of `FromJsonVisitor`: `fromJson(member, doc.at(name))`. */
  method ReadVisit(reg: Registry, v: Visit, doc: Json, obj: Instance, bound: nat) returns (err: Option<Error>)
    requires WellFormed(reg) && RecordsBelow(reg, v.ty, bound)
    requires v.Slot() in obj.slots && HasType(reg, obj.slots[v.Slot()], v.ty)
    modifies obj
    ensures (obj.slots, err) == ReadFieldInto(reg, v, doc, old(obj.slots), bound)
  {
    var member := MemberRef(v, false);
    var sub := Lookup(doc, v.name);
    if sub.Err? {
      return Some(sub.error);
    }
    if v.ty.CArrayT? {
      var size := Size(sub.value);
      if size != v.ty.n {
        assert obj.slots[v.Slot() := obj.slots[v.Slot()]] == obj.slots;
        return Some(ArraySizeMismatch(v.ty.n, size));
      }
      ghost var cur := obj.slots[v.Slot()];
      err := FillCArray(reg, v.ty.elem, Items(sub.value), obj, member, bound);
      ghost var r := ConvertAll(reg, v.ty.elem, Items(sub.value), bound);
      assert r.1.None? ==> r.0 + cur.elems[|r.0|..] == r.0;
      return;
    }
    var x := Convert(reg, v.ty, sub.value, bound);
    if x.Err? {
      assert obj.slots[v.Slot() := obj.slots[v.Slot()]] == obj.slots;
      return Some(x.error);
    }
    obj.Assign(member, x.value);
    return None;
  }

  /** The C-array overload of `fromJson`: `arr[index++] = item.get<M>()` for each item in order,
      the array updated in place; a failing item throws with the earlier items assigned. */
  method FillCArray(reg: Registry, e: FieldType, items: seq<Json>, obj: Instance, member: FieldRef, bound: nat) returns (err: Option<Error>)
    requires WellFormed(reg) && RecordsBelow(reg, e, bound)
    requires member.slot in obj.slots && !member.isConst
    requires obj.slots[member.slot].ArrayV? && |obj.slots[member.slot].elems| == |items|
    modifies obj
    ensures var r := ConvertAll(reg, e, items, bound);
      err == r.1 && obj.slots == old(obj.slots)[member.slot := ArrayV(r.0 + old(obj.slots)[member.slot].elems[|r.0|..])]
  {
    ghost var cur := obj.slots[member.slot];
    ghost var before := obj.slots;
    ghost var done: seq<Value> := [];
    var index := 0;
    assert items[0..] == items;
    assert [] + cur.elems[0..] == cur.elems;
    assert before[member.slot := ArrayV(cur.elems)] == before;
    assert [] + ConvertAll(reg, e, items, bound).0 == ConvertAll(reg, e, items, bound).0;
    while index < |items|
      invariant 0 <= index <= |items| && |done| == index
      invariant obj.slots == before[member.slot := ArrayV(done + cur.elems[index..])]
      invariant ConvertAll(reg, e, items, bound) ==
        (done + ConvertAll(reg, e, items[index..], bound).0, ConvertAll(reg, e, items[index..], bound).1)
    {
      ConvertAllStep(reg, e, items, index, bound);
      var item := Convert(reg, e, items[index], bound);
      if item.Err? {
        assert done + [] == done;
        return Some(item.error);
      }
      var arr := obj.slots[member.slot].elems;
      PrefixStep(done, item.value, cur.elems, arr, ConvertAll(reg, e, items[index + 1..], bound).0);
      obj.Assign(member, ArrayV(arr[index := item.value]));
      done := done + [item.value];
      index := index + 1;
    }
    assert items[index..] == [];
    assert done + [] == done;
    return None;
  }

  lemma ConvertAllStep(reg: Registry, e: FieldType, items: seq<Json>, i: nat, bound: nat)
    requires WellFormed(reg) && RecordsBelow(reg, e, bound) && i < |items|
    ensures ConvertAll(reg, e, items[i..], bound) ==
      match Convert(reg, e, items[i], bound)
      case Err(x) => ([], Some(x))
      case Ok(v) => ([v] + ConvertAll(reg, e, items[i + 1..], bound).0, ConvertAll(reg, e, items[i + 1..], bound).1)
  {
    assert items[i..][1..] == items[i + 1..] && items[i..][0] == items[i];
  }

  lemma PrefixStep(done: seq<Value>, x: Value, elems: seq<Value>, arr: seq<Value>, rest: seq<Value>)
    requires |done| < |elems| && arr == done + elems[|done|..]
    ensures arr[|done| := x] == (done + [x]) + elems[|done| + 1..]
    ensures done + ([x] + rest) == (done + [x]) + rest
  {
  }

  lemma UpdateFieldsStep(reg: Registry, vs: seq<Visit>, k: nat, doc: Json, slots: map<Slot, Value>, bound: nat)
    requires WellFormed(reg) && FieldsBelow(reg, vs, bound) && k < |vs|
    requires forall j :: 0 <= j < |vs| ==> vs[j].Slot() in slots
    ensures FieldsBelow(reg, vs[k..], bound) && FieldsBelow(reg, vs[k + 1..], bound)
    ensures forall j :: 0 <= j < |vs[k..]| ==> vs[k..][j].Slot() in slots
    ensures var step := ReadFieldInto(reg, vs[k], doc, slots, bound);
      UpdateFields(reg, vs[k..], doc, slots, bound) ==
        if step.1.Some? then step else UpdateFields(reg, vs[k + 1..], doc, step.0, bound)
  {
    assert vs[k..][1..] == vs[k + 1..];
    assert vs[k..][0] == vs[k];
  }

  /** Reading one visited field keeps every visited slot typed: the slot read takes a value of its
      type, whole or with a prefix of its items replaced, and the others keep theirs. */
  lemma FieldStepTyped(reg: Registry, vs: seq<Visit>, k: nat, doc: Json, slots: map<Slot, Value>, bound: nat)
    requires WellFormed(reg) && DistinctFieldNames(reg) && FieldsBelow(reg, vs, bound) && k < |vs|
    requires SlotsTyped(reg, vs, slots) && SlotsDetermineVisits(vs)
    ensures SlotsTyped(reg, vs, ReadFieldInto(reg, vs[k], doc, slots, bound).0)
  {
    var v := vs[k];
    var r := ReadFieldInto(reg, v, doc, slots, bound);
    match Lookup(doc, v.name)
    case Err(_) =>
    case Ok(sub) =>
      var m := ReadMember(reg, v.ty, sub, bound);
      ReadMemberTyped(reg, v.ty, sub, bound);
      var nv := Apply(m, slots[v.Slot()]);
      assert HasType(reg, nv, v.ty) by {
        if m.Partial? {
          var cur := slots[v.Slot()];
          forall i | 0 <= i < v.ty.n ensures HasType(reg, nv.elems[i], v.ty.elem) {
            if i < |m.prefix| {
              assert nv.elems[i] == m.prefix[i];
            } else {
              assert nv.elems[i] == cur.elems[i];
            }
          }
        }
      }
      forall j | 0 <= j < |vs| ensures vs[j].Slot() in r.0 && HasType(reg, r.0[vs[j].Slot()], vs[j].ty) {
        if vs[j].Slot() == v.Slot() {
          assert vs[j] == v;
        }
      }
  }

  // ---------------------------------------------------------------------------------------------
  // What a successful read yields

  /** A successful `get<M>()` yields a value of type `M`. */
  lemma {:induction false} ConvertTyped(reg: Registry, ty: FieldType, doc: Json, bound: nat)
    requires WellFormed(reg) && DistinctFieldNames(reg) && RecordsBelow(reg, ty, bound)
    ensures Convert(reg, ty, doc, bound).Ok? ==> HasType(reg, Convert(reg, ty, doc, bound).value, ty)
    decreases bound, TypeSize(ty), 1
  {
    match ty
    case StdArrayT(e, n) => ConvertArrayTyped(reg, e, n, doc, bound);
    case CArrayT(e, n) => ConvertArrayTyped(reg, e, n, doc, bound);
    case RecordT(id) =>
      TraversalFieldsBelow(reg, id);
      TraversalSlotsDetermineVisits(reg, id);
      ConvertFieldsTyped(reg, Traversal(reg, id), doc, map[], Depth(reg, id));
    case _ =>
  }

  lemma {:induction false} ConvertArrayTyped(reg: Registry, e: FieldType, n: nat, doc: Json, bound: nat)
    requires WellFormed(reg) && DistinctFieldNames(reg) && RecordsBelow(reg, e, bound)
    ensures var r := ConvertArray(reg, e, n, doc, bound);
      r.Ok? ==> r.value.ArrayV? && |r.value.elems| == n && forall k :: 0 <= k < n ==> HasType(reg, r.value.elems[k], e)
    decreases bound, TypeSize(e) + 1, 0
  {
    if doc.JArray? {
      var used := if |doc.items| < n then |doc.items| else n;
      ConvertAllTyped(reg, e, doc.items[..used], bound);
    }
  }

  lemma {:induction false} ConvertAllTyped(reg: Registry, e: FieldType, items: seq<Json>, bound: nat)
    requires WellFormed(reg) && DistinctFieldNames(reg) && RecordsBelow(reg, e, bound)
    ensures forall k :: 0 <= k < |ConvertAll(reg, e, items, bound).0| ==> HasType(reg, ConvertAll(reg, e, items, bound).0[k], e)
    decreases bound, TypeSize(e), |items| + 1
  {
    if items != [] {
      ConvertTyped(reg, e, items[0], bound);
      ConvertAllTyped(reg, e, items[1..], bound);
    }
  }

  /** A member read yields a whole value of the member's type, or, for a C array `M[N]`, at most `N`
      items of type `M`. */
  lemma {:induction false} ReadMemberTyped(reg: Registry, ty: FieldType, doc: Json, bound: nat)
    requires WellFormed(reg) && DistinctFieldNames(reg) && RecordsBelow(reg, ty, bound)
    ensures var m := ReadMember(reg, ty, doc, bound);
      (m.Whole? ==> HasType(reg, m.v, ty)) &&
      (m.Partial? ==> ty.CArrayT? && |m.prefix| <= ty.n && forall k :: 0 <= k < |m.prefix| ==> HasType(reg, m.prefix[k], ty.elem))
    decreases bound, TypeSize(ty), 2
  {
    match ty
    case CArrayT(e, n) => ConvertAllTyped(reg, e, Items(doc), bound);
    case _ => ConvertTyped(reg, ty, doc, bound);
  }

  lemma {:induction false} ConvertFieldsTyped(reg: Registry, vs: seq<Visit>, doc: Json, acc: map<Slot, Value>, bound: nat)
    requires WellFormed(reg) && DistinctFieldNames(reg) && FieldsBelow(reg, vs, bound) && SlotsDetermineVisits(vs)
    ensures var r := ConvertFields(reg, vs, doc, acc, bound);
      r.Ok? ==>
        r.value.Keys == acc.Keys + SlotSet(vs) &&
        (forall s :: s in acc && s !in SlotSet(vs) ==> r.value[s] == acc[s]) &&
        SlotsTyped(reg, vs, r.value)
    decreases bound, SumSize(vs), |vs| + 2
  {
    if vs != [] {
      match Lookup(doc, vs[0].name)
      case Err(_) =>
      case Ok(sub) =>
        ReadMemberTyped(reg, vs[0].ty, sub, bound);
        match ReadMember(reg, vs[0].ty, sub, bound)
        case Whole(x) =>
          TailFacts(reg, vs, bound);
          var acc1 := acc[vs[0].Slot() := x];
          ConvertFieldsTyped(reg, vs[1..], doc, acc1, bound);
          var r := ConvertFields(reg, vs, doc, acc, bound);
          assert r == ConvertFields(reg, vs[1..], doc, acc1, bound);
          if r.Ok? {
            ConsTyped(reg, vs, acc, x, r.value);
          }
        case Partial(_, _) =>
        case Failed(_) =>
    }
  }

  /** What a property of visits says of `vs` it says of `vs[1..]`. */
  lemma TailFacts(reg: Registry, vs: seq<Visit>, bound: nat)
    requires vs != [] && FieldsBelow(reg, vs, bound) && SlotsDetermineVisits(vs)
    ensures FieldsBelow(reg, vs[1..], bound) && SlotsDetermineVisits(vs[1..])
    ensures SlotSet(vs) == {vs[0].Slot()} + SlotSet(vs[1..])
  {
    var rest := vs[1..];
    forall i, j | 0 <= i < |rest| && 0 <= j < |rest| && rest[i].Slot() == rest[j].Slot() ensures rest[i] == rest[j] {
      assert rest[i] == vs[i + 1] && rest[j] == vs[j + 1];
    }
    forall i | 0 <= i < |rest| ensures RecordsBelow(reg, rest[i].ty, bound) {
      assert rest[i] == vs[i + 1];
    }
    assert vs == [vs[0]] + rest;
  }

  /** The step of `ConvertFieldsTyped`: the result for `vs[1..]` from `acc[vs[0] := x]` is, for `vs`,
      a map over the right slots, typed at every visit. */
  lemma ConsTyped(reg: Registry, vs: seq<Visit>, acc: map<Slot, Value>, x: Value, m: map<Slot, Value>)
    requires WellFormed(reg) && vs != [] && SlotsDetermineVisits(vs) && HasType(reg, x, vs[0].ty)
    requires SlotSet(vs) == {vs[0].Slot()} + SlotSet(vs[1..])
    requires m.Keys == acc[vs[0].Slot() := x].Keys + SlotSet(vs[1..])
    requires forall s :: s in acc[vs[0].Slot() := x] && s !in SlotSet(vs[1..]) ==> m[s] == acc[vs[0].Slot() := x][s]
    requires SlotsTyped(reg, vs[1..], m)
    ensures m.Keys == acc.Keys + SlotSet(vs)
    ensures forall s :: s in acc && s !in SlotSet(vs) ==> m[s] == acc[s]
    ensures SlotsTyped(reg, vs, m)
  {
    var rest := vs[1..];
    forall j | 0 <= j < |vs| ensures vs[j].Slot() in m && HasType(reg, m[vs[j].Slot()], vs[j].ty) {
      if j > 0 {
        assert vs[j] == rest[j - 1];
      } else if vs[0].Slot() in SlotSet(rest) {
        var w :| w in rest && w.Slot() == vs[0].Slot();
        var i :| 0 <= i < |rest| && rest[i] == w;
        assert vs[i + 1] == w;
        assert w == vs[0];
        assert rest[i] == w;
      }
    }
  }
}
