/** The metadata tables: for each reflected record type an ordered list of its public fields
    (`ClassMember`) and of its reflected direct bases (`type_tag<Base>`), for each enum an ordered
    list of `Enumerator` triples, and the capability check `is_reflecxx_visitable`. */
module Types {
  import opened Wrappers

  /** The identity of a C++ type, as its qualified name. */
  type TypeId = string

  /** `type_tag<M>`: the declared type of a field, handed to type visitors in place of a value.
      Floating point fields (`double`) are treated as reals. */
  datatype FieldType =
    | BoolT
    | IntT
    | DoubleT
    | RecordT(id: TypeId)
    | CArrayT(elem: FieldType, n: nat)     // `M[N]`
    | StdArrayT(elem: FieldType, n: nat)   // `std::array<M, N>`
  {
    predicate IsScalar() { BoolT? || IntT? || DoubleT? }
  }

  /** `ClassMember<Class, M>{&Class::field, "field"}`: the member pointer is the pair (owner, name),
      and `type` is the declared type `M`. */
  datatype ClassMember = ClassMember(name: string, ty: FieldType)

  /** `MetaStructInternal<T>`: `publicFields` and `baseClasses` in declaration order. `depth` is the
      length of the longest chain of bases and by-value nested records below the type; C++ rules
      out cycles among them, so it always exists, and the recursion of the traversal follows it. */
  datatype MetaStruct = MetaStruct(publicFields: seq<ClassMember>, baseClasses: seq<TypeId>, depth: nat)

  /** `Enumerator<Enum>`: the enumerator, its name and its underlying value. */
  datatype Enumerator<E> = Enumerator(enumerator: E, name: string, value: int)

  /** The set of specialisations the generator emitted: record tables by type, and the enum types
      that have a `MetaEnumInternal` table. */
  datatype Registry = Registry(structs: map<TypeId, MetaStruct>, enums: set<TypeId>)

  /** Every record type `ty` mentions is registered with a depth below `bound`. */
  predicate RecordsBelow(reg: Registry, ty: FieldType, bound: nat) {
    match ty
    case RecordT(id) => id in reg.structs && reg.structs[id].depth < bound
    case CArrayT(e, _) => RecordsBelow(reg, e, bound)
    case StdArrayT(e, _) => RecordsBelow(reg, e, bound)
    case _ => true
  }

  /** Every listed base is registered (otherwise `MetaStruct<Base>` is rejected at compile time)
      and is below its derived type; every nested record field type is registered and below its
      owner. */
  predicate WellFormed(reg: Registry) {
    forall t :: t in reg.structs ==>
      (forall b :: b in reg.structs[t].baseClasses ==>
         b in reg.structs && reg.structs[b].depth < reg.structs[t].depth) &&
      (forall m :: m in reg.structs[t].publicFields ==> RecordsBelow(reg, m.ty, reg.structs[t].depth))
  }

  /** No two fields of one record share a name, as C++ forbids. */
  predicate DistinctFieldNames(reg: Registry) {
    forall t :: t in reg.structs ==> UniqueNames(reg.structs[t].publicFields)
  }

  predicate UniqueNames(fields: seq<ClassMember>) {
    forall i, j :: 0 <= i < j < |fields| ==> fields[i].name != fields[j].name
  }

  /** `is_reflecxx_visitable<T>` of types.hpp: a struct or an enum specialisation exists. */
  predicate IsVisitable(reg: Registry, t: TypeId) {
    t in reg.structs || t in reg.enums
  }

  /** The older `is_reflecxx_visitable` of the detail header: it asks whether
      `MetaStruct<T>::publicFields` names something, so it holds for record types only and is
      false for an enum even when the enum has a table. */
  function RecordVisitable(reg: Registry, t: TypeId): (r: bool)
    ensures r ==> IsVisitable(reg, t)
    ensures t in reg.enums && t !in reg.structs ==> !r
    ensures IsVisitable(reg, t) && t !in reg.enums ==> r
  {
    t in reg.structs
  }

  /** `MetaStruct<T>`: the table of a record type; using it for a type without a record table is
      rejected. */
  function MetaStructOf(reg: Registry, t: TypeId): (r: Result<MetaStruct, Error>)
    ensures r.Ok? <==> t in reg.structs
    ensures r.Ok? ==> r.value == reg.structs[t]
    ensures r.Err? ==> r.error == NotVisitable(t)
    ensures !IsVisitable(reg, t) ==> r == Err(NotVisitable(t))
  {
    if t in reg.structs then Ok(reg.structs[t]) else Err(NotVisitable(t))
  }

  /** A type visitor written as a set of overloads: one case for some exact tags `type_tag<M>` and a
      `base_tag` case for every other field type. */
  datatype TagVisitor<R> = TagVisitor(exact: map<FieldType, R>, catchAll: R)

  /** Overload resolution on a tag: every `type_tag<M>` derives from `base_tag`, so the `base_tag`
      case is chosen exactly when no exact case exists for `M`. */
  function Dispatch<R>(v: TagVisitor<R>, ty: FieldType): (r: R)
    ensures ty in v.exact ==> r == v.exact[ty]
    ensures ty !in v.exact ==> r == v.catchAll
  {
    if ty in v.exact then v.exact[ty] else v.catchAll
  }
}
