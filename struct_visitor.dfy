/** Tuple-like access to reflected records (`typeAt`, `fieldCount`, `getName<i>`, `get<i>`) built on
    counting visitors, the lock-step `applyForEach`, and the field-wise `compare` behind `equalTo`,
    `lessThan` and `greaterThan`. */
module StructVisitor {
  import opened Wrappers
  import opened Types
  import opened Visiting
  import opened Values

  // ---------------------------------------------------------------------------------------------
  // Field access by index

  /** `typeAt<i, T>`: the declared type of the field bound at the `i`-th visit call; an index at or
      past the field count has no type. */
  function TypeAt(reg: Registry, t: TypeId, i: nat): (r: Result<FieldType, Error>)
    requires WellFormed(reg) && t in reg.structs
    ensures r.Ok? <==> i < |Traversal(reg, t)|
    ensures r.Ok? ==> r.value == Traversal(reg, t)[i].ty
    ensures r.Err? ==> r.error == IndexOutOfRange(i, |Traversal(reg, t)|)
  {
    if i < |Traversal(reg, t)| then Ok(Traversal(reg, t)[i].ty)
    else Err(IndexOutOfRange(i, |Traversal(reg, t)|))
  }

  /** `fieldCount<T>()`: a type visit whose visitor increments a captured counter once per call.
      The loop counts the calls; the result is also the counting visitor folded over the visit itself,
      through `CountingVisitCountsFields` below. */
  method FieldCount(reg: Registry, t: TypeId) returns (count: nat)
    requires WellFormed(reg) && t in reg.structs
    ensures count == |Traversal(reg, t)|
    ensures count == VisitType(reg, t, (c: int, v: Visit) => c + 1, 0)
  {
    var calls := Traversal(reg, t);
    count := 0;
    for k := 0 to |calls|
      invariant count == k
    {
      count := count + 1;
    }
    CountingVisitCountsFields(reg, t);
  }

  /** A counting visitor folded over the visit of `t` ends at the number of fields, own plus those of
      every reflected base. */
  lemma CountingVisitCountsFields(reg: Registry, t: TypeId)
    requires WellFormed(reg) && t in reg.structs
    ensures VisitType(reg, t, (c: int, v: Visit) => c + 1, 0) == |Traversal(reg, t)|
  {
    VisitTypeIsFold(reg, t, (c: int, v: Visit) => c + 1, 0);
    CountingFold(Traversal(reg, t), 0);
  }

  lemma {:induction false} CountingFold(xs: seq<Visit>, c: int)
    ensures ForEach(xs, (c: int, v: Visit) => c + 1, c) == c + |xs|
    decreases |xs|
  {
    if xs != [] {
      CountingFold(xs[1..], c + 1);
    }
  }

  /** `getName<i, T>()`: a type visit whose visitor remembers the name passed at call number `i`;
      `i` must be below the field count. */
  method GetName(reg: Registry, t: TypeId, i: nat) returns (r: Result<string, Error>)
    requires WellFormed(reg) && t in reg.structs
    ensures i < |Traversal(reg, t)| ==> r == Ok(Traversal(reg, t)[i].name)
    ensures i >= |Traversal(reg, t)| ==> r == Err(IndexOutOfRange(i, |Traversal(reg, t)|))
  {
    var n := FieldCount(reg, t);
    if i >= n {
      return Err(IndexOutOfRange(i, n));
    }
    var calls := Traversal(reg, t);
    var count := 0;
    var out: Option<string> := None;
    for k := 0 to |calls|
      invariant count == k
      invariant out == if i < k then Some(calls[i].name) else None
    {
      if count == i {
        out := Some(calls[k].name);
      }
      count := count + 1;
    }
    assert out.Some?;
    r := Ok(out.value);
  }

  /** `Extractor<T>`: a stateful instance visitor that counts every call and, at call number
      `target`, stores the reference it is handed when that reference has exactly the type `T`
      (declared type and constness) it extracts. */
  class Extractor {
    var count: int
    const target: int
    const fieldTy: FieldType
    const fieldConst: bool
    var found: Option<FieldRef>   // `*_t`, the caller's pointer

    constructor (target: int, fieldTy: FieldType, fieldConst: bool)
      ensures this.target == target && this.fieldTy == fieldTy && this.fieldConst == fieldConst
      ensures count == 0 && found == None
    {
      this.target := target;
      this.fieldTy := fieldTy;
      this.fieldConst := fieldConst;
      count := 0;
      found := None;
    }

    /** One visitor call: the specialisation for `T&` when the reference has the extracted type, the
        generic overload otherwise. */
    method Call(name: string, member: FieldRef)
      modifies this
      ensures count == old(count) + 1
      ensures found == if member.ty == fieldTy && member.isConst == fieldConst && old(count) == target
                       then Some(member) else old(found)
    {
      if member.ty == fieldTy && member.isConst == fieldConst {
        if count == target {
          found := Some(member);
        }
        count := count + 1;
      } else {
        count := count + 1;
      }
    }
  }

  /** `get<i>(obj)`: an instance visit of `obj` with an `Extractor` for `ConstMatchT<typeAt<i, T>, T>`,
      the field type with the constness of `obj`. The result refers to the field bound at call `i`;
      it is const exactly when the instance is, and it is a field of `obj`. */
  method Get(reg: Registry, obj: Instance, isConst: bool, i: nat) returns (r: Result<FieldRef, Error>)
    requires WellFormed(reg) && obj.ty in reg.structs && InstanceVisitCompiles(reg, obj.ty, isConst)
    ensures i < |Traversal(reg, obj.ty)| ==> r == Ok(InstanceCalls(reg, obj.ty, isConst)[i].1)
    ensures i >= |Traversal(reg, obj.ty)| ==> r == Err(IndexOutOfRange(i, |Traversal(reg, obj.ty)|))
    ensures r.Ok? ==> r.value.isConst == isConst && TypeAt(reg, obj.ty, i) == Ok(r.value.ty)
    ensures r.Ok? ==> r.value.slot == Traversal(reg, obj.ty)[i].Slot()
    ensures r.Ok? && obj.Valid(reg) ==> r.value.slot in obj.slots
  {
    var n := FieldCount(reg, obj.ty);
    if i >= n {
      return Err(IndexOutOfRange(i, n));
    }
    var fieldTy := Traversal(reg, obj.ty)[i].ty;
    var calls := InstanceCalls(reg, obj.ty, isConst);
    var e := new Extractor(i, fieldTy, isConst);
    for k := 0 to |calls|
      invariant e.count == k && e.target == i && e.fieldTy == fieldTy && e.fieldConst == isConst
      invariant e.found == if i < k then Some(calls[i].1) else None
    {
      e.Call(calls[k].0, calls[k].1);
    }
    assert e.found.Some?;
    r := Ok(e.found.value);
    ValidHasTraversalSlots(reg, obj, i);
  }

  lemma ValidHasTraversalSlots(reg: Registry, obj: Instance, i: nat)
    requires WellFormed(reg) && obj.ty in reg.structs && i < |Traversal(reg, obj.ty)|
    ensures obj.Valid(reg) ==> Traversal(reg, obj.ty)[i].Slot() in obj.slots
  {
    assert Traversal(reg, obj.ty)[i] in Traversal(reg, obj.ty);
  }

  // ---------------------------------------------------------------------------------------------
  // Lock-step application over several instances of one type

  /** The field at `s` of each of several record values, in argument order. */
  function FieldsAt(args: seq<Value>, s: Slot): (r: seq<Value>)
    requires forall a :: a in args ==> a.RecordV? && s in a.slots
    ensures |r| == |args| && forall j :: 0 <= j < |args| ==> r[j] == args[j].slots[s]
  {
    seq(|args|, j requires 0 <= j < |args| => args[j].slots[s])
  }

  /** All arguments are values of the record type `t`: the `is_same_v<T, Ts>` constraint. */
  predicate SameType(reg: Registry, t: TypeId, args: seq<Value>)
    requires WellFormed(reg)
  {
    forall a :: a in args ==> HasType(reg, a, RecordT(t))
  }

  lemma SameTypeHasSlots(reg: Registry, t: TypeId, args: seq<Value>, v: Visit)
    requires WellFormed(reg) && t in reg.structs && SameType(reg, t, args) && v in Traversal(reg, t)
    ensures forall a :: a in args ==> a.RecordV? && v.Slot() in a.slots
  {
  }

  /** `applyForEach<I>(f, t1, ts...)`: `f(getName<I>, get<I>(t1), get<I>(ts)...)`, then on to `I + 1`
      while it is below the field count; the first call is at index 0, so the type needs a field. */
  function ApplyForEach<S>(reg: Registry, t: TypeId, f: (S, string, seq<Value>) -> S, args: seq<Value>, s: S, i: nat): S
    requires WellFormed(reg) && t in reg.structs && i < |Traversal(reg, t)|
    requires |args| >= 1 && SameType(reg, t, args)
    decreases |Traversal(reg, t)| - i
  {
    var v := Traversal(reg, t)[i];
    SameTypeHasSlots(reg, t, args, v);
    var next := f(s, v.name, FieldsAt(args, v.Slot()));
    if i + 1 < |Traversal(reg, t)| then ApplyForEach(reg, t, f, args, next, i + 1) else next
  }

  /** The field at `s` of each argument, where an argument has it. */
  function Column(args: seq<Value>, s: Slot): seq<Value> {
    seq(|args|, j requires 0 <= j < |args| =>
      if args[j].RecordV? && s in args[j].slots then args[j].slots[s] else args[j])
  }

  /** The visitor of `applyForEach` as a visitor of one visit: it receives the name and the visited
      field of every argument. */
  function LockStep<S>(f: (S, string, seq<Value>) -> S, args: seq<Value>): (S, Visit) -> S {
    (acc: S, v: Visit) => f(acc, v.name, Column(args, v.Slot()))
  }

  /** `applyForEach` calls `f` once per field index, in traversal order, with the name of that field
      and the same-index field of every argument: it is the fold of the lock-step visitor over the
      traversal. */
  lemma ApplyForEachIsFold<S>(reg: Registry, t: TypeId, f: (S, string, seq<Value>) -> S, args: seq<Value>, s: S)
    requires WellFormed(reg) && t in reg.structs && |Traversal(reg, t)| >= 1
    requires |args| >= 1 && SameType(reg, t, args)
    ensures ApplyForEach(reg, t, f, args, s, 0) == ForEach(Traversal(reg, t), LockStep(f, args), s)
  {
    ApplyForEachFrom(reg, t, f, args, s, 0);
    assert Traversal(reg, t)[0..] == Traversal(reg, t);
  }

  lemma {:induction false} ApplyForEachFrom<S>(reg: Registry, t: TypeId, f: (S, string, seq<Value>) -> S, args: seq<Value>, s: S, i: nat)
    requires WellFormed(reg) && t in reg.structs && i < |Traversal(reg, t)|
    requires |args| >= 1 && SameType(reg, t, args)
    ensures ApplyForEach(reg, t, f, args, s, i) == ForEach(Traversal(reg, t)[i..], LockStep(f, args), s)
    decreases |Traversal(reg, t)| - i
  {
    var vs := Traversal(reg, t);
    var v := vs[i];
    SameTypeHasSlots(reg, t, args, v);
    var next := f(s, v.name, FieldsAt(args, v.Slot()));
    assert Column(args, v.Slot()) == FieldsAt(args, v.Slot());
    assert LockStep(f, args)(s, v) == next;
    assert vs[i..][0] == v && vs[i..][1..] == vs[i + 1..];
    if i + 1 < |vs| {
      ApplyForEachFrom(reg, t, f, args, next, i + 1);
    } else {
      assert vs[i + 1..] == [];
    }
  }

  // ---------------------------------------------------------------------------------------------
  // Field-wise comparison

  /** The binary predicate handed to `compare`: `std::equal_to<>`, `std::less<>`, `std::greater<>`. */
  datatype Op = EqualOp | LessOp | GreaterOp

  /** `op` applied to two array lengths. */
  function OpOnSizes(op: Op, n1: nat, n2: nat): bool {
    match op
    case EqualOp => n1 == n2
    case LessOp => n1 < n2
    case GreaterOp => n1 > n2
  }

  /** `<` on two scalars of one kind (`false < true` for `bool`). */
  function ScalarLess(x: Value, y: Value): bool {
    match (x, y)
    case (BoolV(a), BoolV(b)) => !a && b
    case (IntV(a), IntV(b)) => a < b
    case (DoubleV(a), DoubleV(b)) => a < b
    case _ => false
  }

  /** `operator<` of `std::array`: `std::lexicographical_compare` of the elements, using `<` only. */
  function LexLess(xs: seq<Value>, ys: seq<Value>): bool
    decreases |xs|
  {
    if xs == [] || ys == [] then |xs| < |ys|
    else if ScalarLess(xs[0], ys[0]) then true
    else if ScalarLess(ys[0], xs[0]) then false
    else LexLess(xs[1..], ys[1..])
  }

  /** `<` on a field that is not a C array: scalars, or a `std::array` of scalars. */
  function Less(x: Value, y: Value): bool {
    if x.ArrayV? && y.ArrayV? then LexLess(x.elems, y.elems) else ScalarLess(x, y)
  }

  /** `op(val1, val2)` on a field that is not a C array. On a nested record and on a `std::array`,
      `==` is the elements' own `operator==`, which for the reflected test records is `equalTo`:
      value equality. `x > y` is `y < x`, for `std::array` by definition. */
  function ApplyOp(op: Op, x: Value, y: Value): bool {
    match op
    case EqualOp => x == y
    case LessOp => Less(x, y)
    case GreaterOp => Less(y, x)
  }

  /** `compare(a, b, op)` compiles for a field of type `ty`: a scalar; a nested record or a
      `std::array` of records under `==` only (they have `operator==` and no `operator<`); a
      `std::array` of scalars; a C array of records that are themselves comparable, since its
      elements go through `compare` again. */
  predicate FieldComparable(reg: Registry, ty: FieldType, ordered: bool, bound: nat)
    requires WellFormed(reg) && RecordsBelow(reg, ty, bound)
    decreases bound, 0
  {
    match ty
    case BoolT => true
    case IntT => true
    case DoubleT => true
    case RecordT(_) => !ordered
    case StdArrayT(e, _) => e.IsScalar() || (!ordered && e.RecordT?)
    case CArrayT(e, _) =>
      e.RecordT? && assert RecordsBelow(reg, e, bound); StructComparable(reg, e.id, ordered)
  }

  /** `compare<T>` compiles: it takes both records by const reference, so `get<I>` visits a const
      instance and `T` can have no reflected bases; `applyForEach` needs a first field
      (`getName<0, T>`); and every field must be comparable. `ordered` is false for `==` and true
      for `<` and `>`. */
  predicate StructComparable(reg: Registry, t: TypeId, ordered: bool)
    requires WellFormed(reg) && t in reg.structs
    decreases Depth(reg, t), 1
  {
    TraversalTypesBelow(reg, t);
    InstanceVisitCompiles(reg, t, true) &&
    |Traversal(reg, t)| >= 1 &&
    forall k :: 0 <= k < |Traversal(reg, t)| ==>
      FieldComparable(reg, Traversal(reg, t)[k].ty, ordered, Depth(reg, t))
  }

  function Ordered(op: Op): bool {
    !op.EqualOp?
  }

  /** What the `compare` visitor finds for one field: for a C array, `op` on the two lengths and
      `compare` on every element pair; otherwise `op` on the two fields. */
  predicate FieldCompares(reg: Registry, ty: FieldType, op: Op, x: Value, y: Value, bound: nat)
    requires WellFormed(reg) && RecordsBelow(reg, ty, bound) && FieldComparable(reg, ty, Ordered(op), bound)
    requires HasType(reg, x, ty) && HasType(reg, y, ty)
    decreases bound, 0
  {
    match ty
    case CArrayT(e, n) =>
      assert RecordsBelow(reg, e, bound);
      OpOnSizes(op, n, n) &&
      forall k :: 0 <= k < n ==> Compares(reg, e.id, op, x.elems[k], y.elems[k])
    case _ => ApplyOp(op, x, y)
  }

  /** `compare(a, b, op)`: the AND of the visitor's verdict over every field pair, in traversal
      order. */
  predicate Compares(reg: Registry, t: TypeId, op: Op, a: Value, b: Value)
    requires WellFormed(reg) && t in reg.structs && StructComparable(reg, t, Ordered(op))
    requires HasType(reg, a, RecordT(t)) && HasType(reg, b, RecordT(t))
    decreases Depth(reg, t), 1
  {
    TraversalTypesBelow(reg, t);
    forall k :: 0 <= k < |Traversal(reg, t)| ==>
      FieldCompares(reg, Traversal(reg, t)[k].ty, op,
                    a.slots[Traversal(reg, t)[k].Slot()], b.slots[Traversal(reg, t)[k].Slot()], Depth(reg, t))
  }

  /** `compare(t1, t2, op)`: `res` starts true and `applyForEach` runs the comparing visitor over
      every field pair in order. */
  method Compare(reg: Registry, t: TypeId, a: Value, b: Value, op: Op) returns (res: bool)
    requires WellFormed(reg) && t in reg.structs && StructComparable(reg, t, Ordered(op))
    requires HasType(reg, a, RecordT(t)) && HasType(reg, b, RecordT(t))
    ensures res == Compares(reg, t, op, a, b)
    decreases Depth(reg, t), 2
  {
    TraversalTypesBelow(reg, t);
    var calls := Traversal(reg, t);
    res := true;
    for k := 0 to |calls|
      invariant res == forall j :: 0 <= j < k ==>
        FieldCompares(reg, calls[j].ty, op, a.slots[calls[j].Slot()], b.slots[calls[j].Slot()], Depth(reg, t))
    {
      assert calls[k] in calls;
      res := CompareField(reg, calls[k].ty, op, a.slots[calls[k].Slot()], b.slots[calls[k].Slot()], Depth(reg, t), res);
    }
  }

  /** The comparing visitor for one field pair, with the captured `res`: a C array first takes `op`
      of the two sizes and returns at once when `res` is false, then compares the elements in index
      order, returning at the first pair that fails; any other field takes `res && op(val1, val2)`. */
  method CompareField(reg: Registry, ty: FieldType, op: Op, x: Value, y: Value, bound: nat, resIn: bool) returns (res: bool)
    requires WellFormed(reg) && RecordsBelow(reg, ty, bound) && FieldComparable(reg, ty, Ordered(op), bound)
    requires HasType(reg, x, ty) && HasType(reg, y, ty)
    ensures res == (resIn && FieldCompares(reg, ty, op, x, y, bound))
    decreases bound, 1
  {
    res := resIn;
    if ty.CArrayT? {
      var size1 := |x.elems|;
      var size2 := |y.elems|;
      res := res && OpOnSizes(op, size1, size2);
      if !res {
        return;
      }
      res := CompareElements(reg, ty.elem.id, op, x.elems, y.elems, bound);
      assert FieldCompares(reg, ty, op, x, y, bound) == PairsCompare(reg, ty.elem.id, op, x.elems, y.elems, ty.n);
    } else {
      res := res && ApplyOp(op, x, y);
    }
  }

  /** `compare` holds on each of the first `n` pairs. */
  predicate PairsCompare(reg: Registry, e: TypeId, op: Op, xs: seq<Value>, ys: seq<Value>, n: nat)
    requires WellFormed(reg) && e in reg.structs && StructComparable(reg, e, Ordered(op))
    requires n <= |xs| == |ys| && forall k :: 0 <= k < |xs| ==> HasType(reg, xs[k], RecordT(e)) && HasType(reg, ys[k], RecordT(e))
  {
    forall k :: 0 <= k < n ==> Compares(reg, e, op, xs[k], ys[k])
  }

  lemma PairsCompareStep(reg: Registry, e: TypeId, op: Op, xs: seq<Value>, ys: seq<Value>, i: nat)
    requires WellFormed(reg) && e in reg.structs && StructComparable(reg, e, Ordered(op))
    requires i < |xs| == |ys| && forall k :: 0 <= k < |xs| ==> HasType(reg, xs[k], RecordT(e)) && HasType(reg, ys[k], RecordT(e))
    requires PairsCompare(reg, e, op, xs, ys, i) && Compares(reg, e, op, xs[i], ys[i])
    ensures PairsCompare(reg, e, op, xs, ys, i + 1)
  {
  }

  /** The element loop of the comparing visitor on a C array: `compare` on each pair in index
      order, stopping at the first pair that fails. */
  method CompareElements(reg: Registry, e: TypeId, op: Op, xs: seq<Value>, ys: seq<Value>, bound: nat) returns (res: bool)
    requires WellFormed(reg) && e in reg.structs && reg.structs[e].depth < bound && StructComparable(reg, e, Ordered(op))
    requires |xs| == |ys| && forall k :: 0 <= k < |xs| ==> HasType(reg, xs[k], RecordT(e)) && HasType(reg, ys[k], RecordT(e))
    ensures res == PairsCompare(reg, e, op, xs, ys, |xs|)
    decreases bound, 0
  {
    for i := 0 to |xs|
      invariant PairsCompare(reg, e, op, xs, ys, i)
    {
      var same := Compare(reg, e, xs[i], ys[i], op);
      if !same {
        return false;
      }
      PairsCompareStep(reg, e, op, xs, ys, i);
    }
    return true;
  }

  // ---------------------------------------------------------------------------------------------
  // equalTo, lessThan, greaterThan and what they mean

  /** `equalTo(lhs, rhs)`: `compare` with `==`; it holds exactly when the two values are equal. */
  function EqualTo(reg: Registry, t: TypeId, a: Value, b: Value): (r: bool)
    requires WellFormed(reg) && t in reg.structs && StructComparable(reg, t, false)
    requires HasType(reg, a, RecordT(t)) && HasType(reg, b, RecordT(t))
    ensures r <==> a == b
  {
    CompareEqualIsEquality(reg, t, a, b);
    Compares(reg, t, EqualOp, a, b)
  }

  /** Some visited field of `t` is a C array. */
  predicate HasCArrayField(reg: Registry, t: TypeId)
    requires WellFormed(reg) && t in reg.structs
  {
    exists k :: 0 <= k < |Traversal(reg, t)| && Traversal(reg, t)[k].ty.CArrayT?
  }

  /** `lessThan(lhs, rhs)`: `compare` with `<`, so every field of `lhs` is below the same field of
      `rhs`. It is irreflexive and never holds in both directions, and it is always false for a type
      with a C-array field, because `<` is applied to the two equal array lengths. */
  function LessThan(reg: Registry, t: TypeId, a: Value, b: Value): (r: bool)
    requires WellFormed(reg) && t in reg.structs && StructComparable(reg, t, true)
    requires HasType(reg, a, RecordT(t)) && HasType(reg, b, RecordT(t))
    ensures a == b ==> !r
    ensures r ==> !Compares(reg, t, LessOp, b, a)
    ensures HasCArrayField(reg, t) ==> !r
  {
    OrderedCompareFacts(reg, t, a, b);
    Compares(reg, t, LessOp, a, b)
  }

  /** `greaterThan(lhs, rhs)`: `compare` with `>`; it is `lessThan` with the arguments swapped, and
      false for a type with a C-array field for the same reason. */
  function GreaterThan(reg: Registry, t: TypeId, a: Value, b: Value): (r: bool)
    requires WellFormed(reg) && t in reg.structs && StructComparable(reg, t, true)
    requires HasType(reg, a, RecordT(t)) && HasType(reg, b, RecordT(t))
    ensures r == LessThan(reg, t, b, a)
    ensures HasCArrayField(reg, t) ==> !r
  {
    OrderedCompareFacts(reg, t, a, b);
    Compares(reg, t, GreaterOp, a, b)
  }

  /** `compare` with `==` decides value equality, nested records and C arrays of records included. */
  lemma {:induction false} CompareEqualIsEquality(reg: Registry, t: TypeId, a: Value, b: Value)
    requires WellFormed(reg) && t in reg.structs && StructComparable(reg, t, false)
    requires HasType(reg, a, RecordT(t)) && HasType(reg, b, RecordT(t))
    ensures Compares(reg, t, EqualOp, a, b) <==> a == b
    decreases Depth(reg, t), 1
  {
    TraversalTypesBelow(reg, t);
    var vs := Traversal(reg, t);
    forall k | 0 <= k < |vs|
      ensures FieldCompares(reg, vs[k].ty, EqualOp, a.slots[vs[k].Slot()], b.slots[vs[k].Slot()], Depth(reg, t))
          <==> a.slots[vs[k].Slot()] == b.slots[vs[k].Slot()]
    {
      assert vs[k] in vs;
      FieldCompareEqualIsEquality(reg, vs[k].ty, a.slots[vs[k].Slot()], b.slots[vs[k].Slot()], Depth(reg, t));
    }
    if Compares(reg, t, EqualOp, a, b) {
      forall s | s in a.slots ensures s in b.slots && a.slots[s] == b.slots[s] {
        var v :| v in vs && v.Slot() == s;
        var k :| 0 <= k < |vs| && vs[k] == v;
      }
      assert a.slots == b.slots;
    }
  }

  lemma {:induction false} FieldCompareEqualIsEquality(reg: Registry, ty: FieldType, x: Value, y: Value, bound: nat)
    requires WellFormed(reg) && RecordsBelow(reg, ty, bound) && FieldComparable(reg, ty, false, bound)
    requires HasType(reg, x, ty) && HasType(reg, y, ty)
    ensures FieldCompares(reg, ty, EqualOp, x, y, bound) <==> x == y
    decreases bound, 0
  {
    if ty.CArrayT? {
      assert RecordsBelow(reg, ty.elem, bound);
      forall k | 0 <= k < ty.n
        ensures Compares(reg, ty.elem.id, EqualOp, x.elems[k], y.elems[k]) <==> x.elems[k] == y.elems[k]
      {
        CompareEqualIsEquality(reg, ty.elem.id, x.elems[k], y.elems[k]);
      }
      if FieldCompares(reg, ty, EqualOp, x, y, bound) {
        assert x.elems == y.elems;
      }
    }
  }

  lemma LexLessIrreflexive(xs: seq<Value>)
    ensures !LexLess(xs, xs)
  {
  }

  lemma {:induction false} LexLessAsymmetric(xs: seq<Value>, ys: seq<Value>)
    ensures LexLess(xs, ys) ==> !LexLess(ys, xs)
    decreases |xs|
  {
    if xs != [] && ys != [] && !ScalarLess(xs[0], ys[0]) && !ScalarLess(ys[0], xs[0]) {
      LexLessAsymmetric(xs[1..], ys[1..]);
    }
  }

  /** The strict field verdicts: none holds of a field and itself, none in both directions, none for a
      C array (the two lengths are equal), and `>` is `<` swapped. */
  lemma OrderedFieldFacts(reg: Registry, ty: FieldType, x: Value, y: Value, bound: nat)
    requires WellFormed(reg) && RecordsBelow(reg, ty, bound) && FieldComparable(reg, ty, true, bound)
    requires HasType(reg, x, ty) && HasType(reg, y, ty)
    ensures !FieldCompares(reg, ty, LessOp, x, x, bound)
    ensures FieldCompares(reg, ty, LessOp, x, y, bound) ==> !FieldCompares(reg, ty, LessOp, y, x, bound)
    ensures FieldCompares(reg, ty, GreaterOp, x, y, bound) == FieldCompares(reg, ty, LessOp, y, x, bound)
    ensures ty.CArrayT? ==> !FieldCompares(reg, ty, LessOp, x, y, bound) && !FieldCompares(reg, ty, GreaterOp, x, y, bound)
  {
    if !ty.CArrayT? {
      if x.ArrayV? && y.ArrayV? {
        LexLessIrreflexive(x.elems);
        LexLessAsymmetric(x.elems, y.elems);
      }
    }
  }

  lemma OrderedCompareFacts(reg: Registry, t: TypeId, a: Value, b: Value)
    requires WellFormed(reg) && t in reg.structs && StructComparable(reg, t, true)
    requires HasType(reg, a, RecordT(t)) && HasType(reg, b, RecordT(t))
    ensures !Compares(reg, t, LessOp, a, a)
    ensures Compares(reg, t, LessOp, a, b) ==> !Compares(reg, t, LessOp, b, a)
    ensures Compares(reg, t, GreaterOp, a, b) == Compares(reg, t, LessOp, b, a)
    ensures HasCArrayField(reg, t) ==> !Compares(reg, t, LessOp, a, b) && !Compares(reg, t, GreaterOp, a, b)
  {
    TraversalTypesBelow(reg, t);
    var vs := Traversal(reg, t);
    forall k | 0 <= k < |vs|
      ensures !FieldCompares(reg, vs[k].ty, LessOp, a.slots[vs[k].Slot()], a.slots[vs[k].Slot()], Depth(reg, t))
      ensures FieldCompares(reg, vs[k].ty, LessOp, a.slots[vs[k].Slot()], b.slots[vs[k].Slot()], Depth(reg, t))
          ==> !FieldCompares(reg, vs[k].ty, LessOp, b.slots[vs[k].Slot()], a.slots[vs[k].Slot()], Depth(reg, t))
      ensures FieldCompares(reg, vs[k].ty, GreaterOp, a.slots[vs[k].Slot()], b.slots[vs[k].Slot()], Depth(reg, t))
          == FieldCompares(reg, vs[k].ty, LessOp, b.slots[vs[k].Slot()], a.slots[vs[k].Slot()], Depth(reg, t))
      ensures vs[k].ty.CArrayT? ==>
        !FieldCompares(reg, vs[k].ty, LessOp, a.slots[vs[k].Slot()], b.slots[vs[k].Slot()], Depth(reg, t)) &&
        !FieldCompares(reg, vs[k].ty, GreaterOp, a.slots[vs[k].Slot()], b.slots[vs[k].Slot()], Depth(reg, t))
    {
      assert vs[k] in vs;
      OrderedFieldFacts(reg, vs[k].ty, a.slots[vs[k].Slot()], b.slots[vs[k].Slot()], Depth(reg, t));
      OrderedFieldFacts(reg, vs[k].ty, b.slots[vs[k].Slot()], a.slots[vs[k].Slot()], Depth(reg, t));
    }
    assert !FieldCompares(reg, vs[0].ty, LessOp, a.slots[vs[0].Slot()], a.slots[vs[0].Slot()], Depth(reg, t));
  }

  /** Two scalars of one scalar type are ordered one way or the other, or are equal. */
  lemma ScalarTrichotomy(reg: Registry, x: Value, y: Value, e: FieldType)
    requires WellFormed(reg) && e.IsScalar() && HasType(reg, x, e) && HasType(reg, y, e)
    ensures ScalarLess(x, y) || ScalarLess(y, x) || x == y
  {
  }

  /** `<` on the elements of a `std::array` of scalars is transitive lexicographically. */
  lemma {:induction false} LexLessTransitive(reg: Registry, e: FieldType, xs: seq<Value>, ys: seq<Value>, zs: seq<Value>)
    requires WellFormed(reg) && e.IsScalar()
    requires forall k :: 0 <= k < |xs| ==> HasType(reg, xs[k], e)
    requires forall k :: 0 <= k < |ys| ==> HasType(reg, ys[k], e)
    requires forall k :: 0 <= k < |zs| ==> HasType(reg, zs[k], e)
    requires LexLess(xs, ys) && LexLess(ys, zs)
    ensures LexLess(xs, zs)
    decreases |xs|
  {
    if xs != [] && ys != [] && zs != [] {
      ScalarTrichotomy(reg, xs[0], ys[0], e);
      ScalarTrichotomy(reg, ys[0], zs[0], e);
      if xs[0] == ys[0] && ys[0] == zs[0] {
        LexLessTransitive(reg, e, xs[1..], ys[1..], zs[1..]);
      }
    }
  }

  /** The per-field `<` verdict is transitive. */
  lemma FieldLessTransitive(reg: Registry, ty: FieldType, x: Value, y: Value, z: Value, bound: nat)
    requires WellFormed(reg) && RecordsBelow(reg, ty, bound) && FieldComparable(reg, ty, true, bound)
    requires HasType(reg, x, ty) && HasType(reg, y, ty) && HasType(reg, z, ty)
    requires FieldCompares(reg, ty, LessOp, x, y, bound) && FieldCompares(reg, ty, LessOp, y, z, bound)
    ensures FieldCompares(reg, ty, LessOp, x, z, bound)
  {
    if ty.StdArrayT? {
      LexLessTransitive(reg, ty.elem, x.elems, y.elems, z.elems);
    }
  }

  /** `lessThan` is transitive: with irreflexivity (`LessThan`'s own contract) it is a strict
      partial order on the values of a comparable type. */
  lemma LessThanTransitive(reg: Registry, t: TypeId, a: Value, b: Value, c: Value)
    requires WellFormed(reg) && t in reg.structs && StructComparable(reg, t, true)
    requires HasType(reg, a, RecordT(t)) && HasType(reg, b, RecordT(t)) && HasType(reg, c, RecordT(t))
    requires LessThan(reg, t, a, b) && LessThan(reg, t, b, c)
    ensures LessThan(reg, t, a, c)
  {
    TraversalTypesBelow(reg, t);
    var vs := Traversal(reg, t);
    forall k | 0 <= k < |vs|
      ensures FieldCompares(reg, vs[k].ty, LessOp, a.slots[vs[k].Slot()], c.slots[vs[k].Slot()], Depth(reg, t))
    {
      assert vs[k] in vs;
      FieldLessTransitive(reg, vs[k].ty, a.slots[vs[k].Slot()], b.slots[vs[k].Slot()], c.slots[vs[k].Slot()], Depth(reg, t));
    }
  }
}
