/** Instances of reflected types. A record instance is the map from the slots the traversal of its
    type visits (declaring type, field name) to field values; a base view `static_cast<B&>` of an
    instance designates the same object, so the slots of a base are slots of the derived instance. */
module Values {
  import opened Types
  import opened Visiting

  datatype Value =
    | BoolV(b: bool)
    | IntV(i: int)
    | DoubleV(d: real)
    | ArrayV(elems: seq<Value>)          // a C array `M[N]` or a `std::array<M, N>`
    | RecordV(slots: map<Slot, Value>)   // a reflected record, own and inherited fields

  /** The slots a visit of `t` reaches. */
  function SlotsOf(reg: Registry, t: TypeId): set<Slot>
    requires WellFormed(reg) && t in reg.structs
  {
    set v | v in Traversal(reg, t) :: v.Slot()
  }

  /** `v` is a value of the declared type `ty`: scalars of their kind, arrays of exactly `n`
      elements of the element type, records holding exactly the slots of their traversal, each of
      the type its visit declares. */
  predicate HasType(reg: Registry, v: Value, ty: FieldType)
    requires WellFormed(reg)
    decreases v
  {
    match ty
    case BoolT => v.BoolV?
    case IntT => v.IntV?
    case DoubleT => v.DoubleV?
    case CArrayT(e, n) => v.ArrayV? && |v.elems| == n && forall k :: 0 <= k < n ==> HasType(reg, v.elems[k], e)
    case StdArrayT(e, n) => v.ArrayV? && |v.elems| == n && forall k :: 0 <= k < n ==> HasType(reg, v.elems[k], e)
    case RecordT(id) =>
      id in reg.structs && v.RecordV? && v.slots.Keys == SlotsOf(reg, id) &&
      forall k :: 0 <= k < |Traversal(reg, id)| ==>
        HasType(reg, v.slots[Traversal(reg, id)[k].Slot()], Traversal(reg, id)[k].ty)
  }

  /** A mutable object of a reflected record type: what `T& instance` refers to. */
  class Instance {
    const ty: TypeId
    var slots: map<Slot, Value>

    constructor (ty: TypeId, slots: map<Slot, Value>)
      ensures this.ty == ty && this.slots == slots
    {
      this.ty := ty;
      this.slots := slots;
    }

    /** The instance as a value. */
    function Contents(): Value
      reads this
    {
      RecordV(slots)
    }

    predicate Valid(reg: Registry)
      requires WellFormed(reg)
      reads this
    {
      HasType(reg, Contents(), RecordT(ty))
    }

    /** Reading through a reference to a field of this instance. */
    function Read(r: FieldRef): Value
      requires r.slot in slots
      reads this
    {
      slots[r.slot]
    }

    /** Assignment through a non-const reference to a field of this instance: the field takes the
        new value and every other field keeps its own. */
    method Assign(r: FieldRef, v: Value)
      requires r.slot in slots && !r.isConst
      modifies this
      ensures slots == old(slots)[r.slot := v]
      ensures Read(r) == v
      ensures forall s :: s in slots && s != r.slot ==> slots[s] == old(slots)[s]
    {
      slots := slots[r.slot := v];
    }
  }
}
