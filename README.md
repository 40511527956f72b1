# reflecxx in Dafny

reflecxx is a C++17 reflection library. A code generator emits one metadata table per annotated
record type and one per annotated enum. The header-only library builds the rest on those tables:

- visitation of a record's fields, by instance and by type;
- tuple-like access: `typeAt`, `fieldCount`, `getName<i>`, `get<i>`;
- field-wise comparison;
- enum introspection;
- an `nlohmann::json` adapter.

Everything is resolved at compile time. This project models that core in Dafny and proves what each
operation promises.

- **Metadata tables** (`types.dfy`). A `Registry` maps each record type to its `MetaStruct`: the
  public fields in declaration order and the direct reflected bases. It also lists the enum types
  that have a table.
  - `WellFormed` states what the compiler enforces: every base and every nested record is
    registered, and no type reaches itself.
  - The `depth` of a `MetaStruct` is the rank that makes this acyclicity explicit.
  - Overload resolution on `type_tag<M>` versus `base_tag` is `Dispatch`.
- **Traversal engine** (`traversal.dfy`). `Traversal` is the sequence of visitor calls a visit of a
  type makes: its own fields, then each base's whole traversal.
  - The code-shaped recursions are proved equal to folds over that sequence:
    - `VisitType` and `VisitInstance` for `visit`;
    - `ForEach` for the discarding `forEach`;
    - `ForEachAccum` for the accumulating `forEach`;
    - `VisitAccumulate` for `visitAccummulate`, with nested base results;
    - `ChainVisit` for the older `chainvisit`.
  - A visitor keeps state across its calls. A discarding visitor maps the state before a call to
    the state after it. A value-returning visitor also gives the call's result. `Scan` is the
    reference run of such a visitor: one call per element, in order. The accumulating forms are
    proved to make exactly those calls, in that order, and to leave the visitor in the state the
    discarding visit leaves it in.
- **Instances** (`values.dfy`). A record value maps each visited slot (declaring type, field name)
  to a value. An `Instance` is a mutable object whose slots change through non-const references.
- **Accessors and comparison** (`struct_visitor.dfy`). `FieldCount`, `GetName`, `Get` (through the
  stateful `Extractor` class), `TypeAt` and `ApplyForEach` are proved against the traversal.
  - `Compare` is the comparing visitor, with its C-array loop.
  - `EqualTo` is proved to mean value equality.
  - `LessThan` is proved irreflexive, asymmetric and transitive, so it is a strict partial order.
    `GreaterThan` is `LessThan` with the arguments swapped.
- **Proto prototype** (`proto_struct_visitor.dfy`, `proto_enum_visitor.dfy`).
  - Its `eql1` is modelled as written, and a defect in it is reported below.
  - Its visitor-driven enum functions run a visitor over the acceptor's calls.
- **Enum introspection** (`enum_visitor.dfy`, `cstrings.dfy`). These scan the generated
  `Enumerator` table and match names with the recursive `strings_equal` on NUL-terminated strings.
- **JSON adapter** (`json.dfy`, `json_visitor.dfy`, `json_properties.dfy`).
  - `json.dfy` is a document model of the part of `nlohmann::json` the adapter uses: objects kept
    in `std::map` key order, `operator[]`, `at`, `size` and iteration.
  - `json_visitor.dfy` holds `to_json`, `from_json` and the C-array overload.
  - `json_properties.dfy` holds the round trip `from_json(to_json(t)) == t`. It is proved for every
    type `to_json` compiles for, and such a type always has the 1:1 field mapping the adapter
    requires.
- **Test types** (`fixtures.dfy`, `enum_fixtures.dfy`, `json_fixtures.dfy`). These hold the
  generated tables of the test types and the concrete results the tests check.
- **The `basics.cpp` prototype** (`basics.dfy`). It has hand-written acceptors, the helpers its
  `main` checks, and the in-place `increment`.

## Model

| member | source | states |
|---|---|---|
| Types.RecordVisitable | reflecxx/include/reflecxx/detail/reflecxx_detail.hpp:192-196 | the older trait holds only for types with a record table: never for an enum with no record table, always for a visitable record |
| Types.MetaStructOf | reflecxx/include/reflecxx/types.hpp:29-32 | a type's table is available exactly when it is registered; for any other type it is the "must be specialized" error |
| Types.Dispatch | reflecxx/include/reflecxx/types.hpp:11-15 | a field whose tag has an exact overload gets that case; every other tag falls back to the `base_tag` case |
| Values.Instance.Assign | reflecxx/include/reflecxx/detail/visit.hpp:29-38 | writing through a bound non-const reference changes that one slot, and the reference reads back the new value |
| Visiting.BasesOfWellFormed | test/generated/classes_reflecxx_generated.hpp:53-55 | helper: the base clause of the well-formedness condition, unfolded for one type: every base a generated `baseClasses` tuple lists is registered with a smaller depth |
| Visiting.Traversal | reflecxx/include/reflecxx/visit.hpp:24-29 | the calls of a visit: the own fields in declaration order, then each base's whole traversal; `VisitTypeIsFold` and `VisitInstanceIsFold` prove that the code-shaped visits make exactly these calls |
| Visiting.TraversalTypesBelow | reflecxx/include/reflecxx/visit.hpp:24-29 | every field type a visit reaches, own or inherited, mentions only registered records below the visited type |
| Visiting.TraversalFieldsBelow | reflecxx/include/reflecxx/visit.hpp:24-29 | in index form: each visited field's type is registered below the visited type |
| Visiting.VisitsAreFields | reflecxx/include/reflecxx/detail/visit.hpp:67-75 | every call carries the name and declared type of a public field of its declaring class, and that class is registered |
| Visiting.TraversalSlotsDetermineVisits | reflecxx/include/reflecxx/detail/visit.hpp:41-51 | a slot reached twice through the base recursion is the same field with the same type both times |
| Visiting.ForEach | reflecxx/include/reflecxx/detail/visit.hpp:105-108 | the discarding `forEach`, one visitor call per element with the visitor's state threaded through; `ForEachVisitsInOrder` and `ForEachAppend` state its order |
| Visiting.ForEachAppend | reflecxx/include/reflecxx/detail/visit.hpp:105-108 | applying a visitor over a concatenation is applying it over the first part, then over the second |
| Visiting.ForEachVisitsInOrder | reflecxx/include/reflecxx/detail/visit.hpp:105-108 | the comma fold calls the visitor exactly once per element, in tuple order |
| Visiting.VisitType | reflecxx/include/reflecxx/visit.hpp:24-29 | `visit<T>(visitor)` as the code recurses, own fields then bases; `VisitTypeIsFold` states that it is the fold over `Traversal` |
| Visiting.VisitTypeIsFold | reflecxx/include/reflecxx/visit.hpp:24-29 | the type visit (own fields through `MemberTypeVisitor`, then bases through `BaseClassMemberTypeVisitor`) is the visitor folded over `Traversal` |
| Visiting.VisitBasesIsFold | reflecxx/include/reflecxx/detail/visit.hpp:78-87 | visiting each base in turn is the fold over the bases' concatenated traversals |
| Visiting.VisitInstance | reflecxx/include/reflecxx/visit.hpp:16-22 | `visit(instance, visitor)`, rejected for a const instance with reflected bases; `VisitInstanceIsFold` states its calls |
| Visiting.InstanceCalls | reflecxx/include/reflecxx/detail/visit.hpp:29-51 | an instance visit makes one call per traversal entry, with that entry's name and a reference to its slot with the instance's constness; a const instance must have no reflected bases, because `static_cast<B&>` of a const object is rejected |
| Visiting.VisitInstanceIsFold | reflecxx/include/reflecxx/visit.hpp:16-22 | the instance visit folds the visitor over those calls: the same names in the same order as the type visit, every reference with the instance's constness |
| Visiting.ScanInOrder | reflecxx/include/reflecxx/detail/visit.hpp:110-115 | a value-returning visitor runs once per element in index order: its final state is the discarding fold of its state part, and result number k is its result for element k in the state the first k calls left |
| Visiting.ScanAppend | reflecxx/include/reflecxx/detail/visit.hpp:116-124 | a run over a concatenation is a run over the first part, then a run over the second from the state the first part left |
| Visiting.ForEachAccum | reflecxx/include/reflecxx/detail/visit.hpp:116-129 | the accumulating `forEach` calls the shared visitor on the elements from `I` on, in order, each call in the state the previous one left, and returns the previous results followed by those results; the empty tuple returns them unchanged |
| Visiting.ChainVisit | reflecxx/include/reflecxx/detail/reflecxx_detail.hpp:149-164 | the older `chainvisit` as the code recurses; `ChainVisitIsForEachAccum` states what it computes |
| Visiting.ChainVisitIsForEachAccum | reflecxx/include/reflecxx/detail/reflecxx_detail.hpp:149-164 | the older `chainvisit` makes the same calls in the same order as the accumulating `forEach`: the same results, one appended per remaining element, and the same final visitor state |
| Visiting.VisitAccumulate | reflecxx/include/reflecxx/visit.hpp:31-47 | `visitAccummulate` as the code recurses, own fields then bases, with the visitor's state threaded through; `FlattenVisitAccumulate` states what it computes |
| Visiting.OwnAccum | reflecxx/include/reflecxx/visit.hpp:43-44 | the own fields give one leaf per public field, in declaration order, each the visitor's result in the state the previous calls left, and the visitor ends as those calls leave it |
| Visiting.AccumBases | reflecxx/include/reflecxx/detail/visit.hpp:93-102 | `forEach(baseClasses, BaseClassMemberTypeChainVisitor, results)` as the code recurses; `AccumBasesIsNested` states what it computes |
| Visiting.NestedResults | reflecxx/include/reflecxx/detail/visit.hpp:93-102 | the bases give one nested element per base, in list order; `FlattenNestedResults` states their contents and final state |
| Visiting.AccumBasesIsNested | reflecxx/include/reflecxx/visit.hpp:45-46 | the accumulating walk over the bases keeps the own-field results and appends each base's nested results, each base visited in the state the previous ones left |
| Visiting.VisitAccumulateSplit | reflecxx/include/reflecxx/visit.hpp:40-47 | `visitAccummulate` gives the own-field leaves followed by one nested element per base, and the bases are visited from the state the own fields left |
| Visiting.FlattenVisitAccumulate | reflecxx/include/reflecxx/visit.hpp:40-47 | with the nesting removed, the accumulated results are those of the visitor run over the traversal's calls in order, and the visitor ends in the state that run leaves |
| Visiting.VisitAccumulateType | reflecxx/include/reflecxx/visit.hpp:40-47 | `visitAccummulate<T>(visitor)`; `VisitAccumulateTypeFlattens` states what it computes |
| Visiting.VisitAccumulateTypeFlattens | reflecxx/include/reflecxx/visit.hpp:40-47 | `visitAccummulate<T>(visitor)` leaves the visitor in the state `visit<T>` leaves it in, and flattened result number k is the visitor's result for the k-th name and tag in the state the first k calls left |
| Visiting.VisitAccumulateInstance | reflecxx/include/reflecxx/visit.hpp:31-38 | `visitAccummulate(instance, visitor)`, rejected for a const instance with reflected bases; `VisitAccumulateInstanceFlattens` states what it computes |
| Visiting.VisitAccumulateInstanceFlattens | reflecxx/include/reflecxx/visit.hpp:31-38 | `visitAccummulate(instance, visitor)` leaves the visitor in the state `visit(instance, visitor)` leaves it in, and flattened result number k is the visitor's result for that visit's k-th name and reference in the state the first k calls left |
| Visiting.FlattenNestedResults | reflecxx/include/reflecxx/detail/visit.hpp:93-102 | the bases' nested results, flattened, are those of the visitor run over the bases' traversals in order, and the visitor ends as that run leaves it |
| StructVisitor.TypeAt | reflecxx/include/reflecxx/struct_visitor.hpp:14-16 | the i-th field type is the declared type of the i-th visited field; an index past the last field is an out-of-range error |
| StructVisitor.FieldCount | reflecxx/include/reflecxx/impl/struct_visitor_impl.hpp:73-80 | the count is the number of visited fields, own and inherited, and equals the counting visitor folded over the type visit |
| StructVisitor.CountingVisitCountsFields | reflecxx/include/reflecxx/impl/struct_visitor_impl.hpp:73-80 | the type visit with a counting visitor yields the length of the traversal |
| StructVisitor.GetName | reflecxx/include/reflecxx/impl/struct_visitor_impl.hpp:82-99 | the name remembered at call number i is the i-th visited field's name; an index past the last is the out-of-range error |
| StructVisitor.Extractor.constructor | reflecxx/include/reflecxx/impl/struct_visitor_impl.hpp:13-19 | a fresh extractor has counted nothing and found nothing |
| StructVisitor.Extractor.Call | reflecxx/include/reflecxx/impl/struct_visitor_impl.hpp:20-33 | every call counts; only a call at the target index whose reference has the extracted type and constness records that reference |
| StructVisitor.Get | reflecxx/include/reflecxx/impl/struct_visitor_impl.hpp:56-71 | `get<i>` returns the reference bound at the i-th call: the i-th field's slot, of type `typeAt<i>`, with the object's constness and present in the object; an index past the last is the out-of-range error; a const object must have no reflected bases, as its visit requires |
| StructVisitor.ApplyForEach | reflecxx/include/reflecxx/impl/struct_visitor_impl.hpp:101-110 | `applyForEach<I>` as the code recurses; `ApplyForEachIsFold` states its calls |
| StructVisitor.ApplyForEachIsFold | reflecxx/include/reflecxx/impl/struct_visitor_impl.hpp:101-110 | `applyForEach` calls `f` once per field index, in traversal order, with that field's name and the same field of every argument |
| StructVisitor.Compares | reflecxx/include/reflecxx/impl/struct_visitor_impl.hpp:117-155 | the verdict of `compare`; `CompareEqualIsEquality`, `OrderedCompareFacts` and `LessThanTransitive` state what it means |
| StructVisitor.Compare | reflecxx/include/reflecxx/impl/struct_visitor_impl.hpp:117-155 | the returned `res` is the AND of the comparing visitor's verdict over every field pair |
| StructVisitor.CompareField | reflecxx/include/reflecxx/impl/struct_visitor_impl.hpp:121-152 | one visitor call: a C array takes `op` on its lengths and then `compare` element by element, stopping early; any other field takes `op(val1, val2)` |
| StructVisitor.CompareElements | reflecxx/include/reflecxx/impl/struct_visitor_impl.hpp:137-145 | the element loop holds exactly when `compare` holds on every element pair |
| StructVisitor.EqualTo | reflecxx/include/reflecxx/struct_visitor.hpp:37-40 | `equalTo` holds exactly when the two values are equal; it compiles only for a type without reflected bases, whose C-array elements compile too |
| StructVisitor.LessThan | reflecxx/include/reflecxx/struct_visitor.hpp:42-45 | `lessThan` is irreflexive and asymmetric, and it is always false for a type with a C-array field |
| StructVisitor.LessThanTransitive | reflecxx/include/reflecxx/struct_visitor.hpp:42-45 | `lessThan` is transitive, so with irreflexivity it is a strict partial order |
| StructVisitor.GreaterThan | reflecxx/include/reflecxx/struct_visitor.hpp:47-50 | `greaterThan(a, b)` is `lessThan(b, a)`, and it is false for a type with a C-array field |
| StructVisitor.CompareEqualIsEquality | reflecxx/include/reflecxx/struct_visitor.hpp:37-40 | `compare` with `std::equal_to` decides value equality, nested records and C arrays of records included |
| StructVisitor.FieldCompareEqualIsEquality | reflecxx/include/reflecxx/impl/struct_visitor_impl.hpp:121-152 | on one field, the `==` verdict is value equality |
| StructVisitor.OrderedFieldFacts | reflecxx/include/reflecxx/impl/struct_visitor_impl.hpp:121-152 | on one field, the `<` verdict is irreflexive and asymmetric, `>` is `<` swapped, and a C array never passes `op` on equal lengths |
| StructVisitor.OrderedCompareFacts | reflecxx/include/reflecxx/struct_visitor.hpp:42-50 | on whole records, `compare` with `<` is irreflexive and asymmetric, `>` is `<` swapped, and both are false with a C-array field |
| ProtoStructVisitor.GetThenAdd | test/test_struct_visitor.cpp:153-158 | `get<2>(b) += 3` on `Basics b{true, 1, 1.5}` refers to `b.d` and leaves `b` holding `{true, 1, 4.5}` |
| ProtoStructVisitor.ApplyForEachPair | proto/include/proto/impl/struct_visitor_impl.hpp:110-114 | the visitor-last overload is the lock-step fold over the traversal with the two arguments |
| ProtoStructVisitor.Eql1 | proto/include/proto/impl/struct_visitor_impl.hpp:116-126 | `eql1` as written: true exactly when `val1 == val2` holds on every field pair, where a C-array pair compares addresses |
| ProtoStructVisitor.FieldEqSameObject | proto/include/proto/impl/struct_visitor_impl.hpp:119-123 | comparing an object with itself, every field pair is equal, C arrays included |
| ProtoStructVisitor.FieldEqIsEquality | proto/include/proto/impl/struct_visitor_impl.hpp:119-123 | on a field with no C array, `val1 == val2` is value equality, whichever objects hold it |
| ProtoStructVisitor.Eql1SameObject | proto/include/proto/impl/struct_visitor_impl.hpp:116-126 | `eql1(t, t)` is true |
| ProtoStructVisitor.Eql1WithoutCArrays | proto/include/proto/impl/struct_visitor_impl.hpp:116-126 | for a type without C arrays, `eql1` decides value equality |
| ProtoStructVisitor.Eql1DistinctObjects | proto/include/proto/impl/struct_visitor_impl.hpp:116-126 | for a type with a C-array field, `eql1` of two distinct objects is false whatever they hold |
| ProtoStructVisitor.Eql1MissesEqualWrappers | proto/include/proto/impl/struct_visitor_impl.hpp:116-126 | two distinct `Wrapper` objects holding the same value: `eql1` reports them different |
| ProtoStructVisitor.Eql | proto/include/proto/impl/struct_visitor_impl.hpp:116-126 | the corrected `eql1`: true exactly when the two objects hold equal values |
| CStrings.StringsEqual | reflecxx/include/reflecxx/impl/enum_visitor_impl.hpp:25-27 | the recursive `strings_equal`; `StringsEqualIsTextEquality` states what it decides |
| CStrings.StringsEqualIsTextEquality | reflecxx/include/reflecxx/impl/enum_visitor_impl.hpp:25-27 | `strings_equal` holds exactly when the two strings agree up to their first NUL |
| EnumVisitor.FirstWithEnumerator | reflecxx/include/reflecxx/impl/enum_visitor_impl.hpp:14-23 | the index found is the first table entry for the enumerator; none is found only when no entry has it |
| EnumVisitor.FirstWithName | reflecxx/include/reflecxx/impl/enum_visitor_impl.hpp:30-40 | the index found is the first entry whose name `strings_equal` matches; none is found only when no name matches |
| EnumVisitor.EnumName | reflecxx/include/reflecxx/impl/enum_visitor_impl.hpp:14-23 | the scan returns the name of the first entry for the enumerator, or the "Invalid enumerator." error |
| EnumVisitor.FromName | reflecxx/include/reflecxx/impl/enum_visitor_impl.hpp:30-40 | the scan returns the enumerator of the first entry whose name matches, or the invalid-name error |
| EnumVisitor.EnumNames | reflecxx/include/reflecxx/impl/enum_visitor_impl.hpp:43-50 | `enumSize` names, each the name of the table entry at that index |
| EnumVisitor.Enumerators | reflecxx/include/reflecxx/impl/enum_visitor_impl.hpp:53-60 | `enumSize` enumerators, each the enumerator of the entry at that index |
| EnumVisitor.EnumContains | reflecxx/include/reflecxx/impl/enum_visitor_impl.hpp:64-72 | true exactly when some entry has that underlying value |
| EnumVisitor.NameOf | reflecxx/include/reflecxx/impl/enum_visitor_impl.hpp:14-23 | the result of `enumName`; `EnumName`, `NameOfFinds` and `NameRoundTrip` state it |
| EnumVisitor.EnumeratorNamed | reflecxx/include/reflecxx/impl/enum_visitor_impl.hpp:30-40 | the result of `fromName`; `FromName`, `NameMatches` and `EnumeratorRoundTrip` state it |
| EnumVisitor.NameOfFinds | reflecxx/include/reflecxx/impl/enum_visitor_impl.hpp:14-23 | `enumName` succeeds exactly for the enumerators in the table; any other enumerator is the invalid-enumerator error |
| EnumVisitor.NameMatches | reflecxx/include/reflecxx/impl/enum_visitor_impl.hpp:30-40 | a string matches an entry exactly when its text is that entry's name |
| EnumVisitor.NameRoundTrip | reflecxx/include/reflecxx/impl/enum_visitor_impl.hpp:14-40 | with distinct names, `fromName(enumName(e)) == e` for every enumerator in the table |
| EnumVisitor.EnumeratorRoundTrip | reflecxx/include/reflecxx/impl/enum_visitor_impl.hpp:14-40 | with distinct names and enumerators, `enumName(fromName(s))` is the text of `s` |
| ProtoEnumVisitor.EnumSize | proto/include/proto/enum_visitor.hpp:12-18 | the counting visitor ends at the number of acceptor calls |
| ProtoEnumVisitor.LastWithEnumerator | proto/include/proto/enum_visitor.hpp:21-32 | the index found is the last call for the enumerator; none is found only when no call has it |
| ProtoEnumVisitor.LastWithName | proto/include/proto/enum_visitor.hpp:35-52 | the index found is the last call whose name is the same pointer; none only when no call has it |
| ProtoEnumVisitor.NameOfLast | proto/include/proto/enum_visitor.hpp:21-32 | the result of the proto `enumName`; `EnumName` and `EnumNameVersionsAgree` state it |
| ProtoEnumVisitor.EnumeratorAt | proto/include/proto/enum_visitor.hpp:35-52 | the result of the proto `fromName`; `FromName` and `FromNameComparesPointers` state it |
| ProtoEnumVisitor.EnumName | proto/include/proto/enum_visitor.hpp:21-32 | the captured name ends as the name of the last call for the target, or stays null |
| ProtoEnumVisitor.FromName | proto/include/proto/enum_visitor.hpp:35-52 | the result is the enumerator of the last call whose name is the same pointer; with no such call it throws |
| ProtoEnumVisitor.EnumNames | proto/include/proto/enum_visitor.hpp:55-65 | `names[count]` ends as the name of call number `count`, for every call |
| ProtoEnumVisitor.Enumerators | proto/include/proto/enum_visitor.hpp:68-78 | `arr[count]` ends as the enumerator of call number `count`, for every call |
| ProtoEnumVisitor.EnumContains | proto/include/proto/enum_visitor.hpp:82-92 | true exactly when some call has that value |
| ProtoEnumVisitor.EnumNameVersionsAgree | proto/include/proto/enum_visitor.hpp:21-32 | when the target occurs once, the proto and table versions of `enumName` give the same name |
| ProtoEnumVisitor.EnumNameMissing | proto/include/proto/enum_visitor.hpp:21-32 | for a missing enumerator the proto version returns null and the table version the error |
| ProtoEnumVisitor.AliasedEnumeratorNames | proto/include/proto/enum_visitor.hpp:21-32 | with two names for one enumerator, the table version returns the first and the proto version the last |
| ProtoEnumVisitor.FromNameComparesPointers | proto/include/proto/enum_visitor.hpp:35-52 | the proto `fromName` matches addresses: an equal text stored elsewhere throws, while the table version accepts it |
| Json.Get | reflecxx/include/reflecxx/json_visitor.hpp:56-58 | the member found has the key; none is found exactly when no member has it |
| Json.Insert | reflecxx/include/reflecxx/json_visitor.hpp:44 | `doc[key] = x` on an object's members in key order; `InsertSpec` states its effect |
| Json.InsertSpec | reflecxx/include/reflecxx/json_visitor.hpp:44 | after `doc[key] = x` the key holds `x`, every other key is unchanged, and key order is kept |
| Json.SetKey | reflecxx/include/reflecxx/json_visitor.hpp:44 | assigning a member of a null or object document: the result is an object in which the key holds the value and other keys are unchanged |
| Json.Lookup | reflecxx/include/reflecxx/json_visitor.hpp:57 | `at(name)` gives the member when the document is an object with that key; otherwise it is a not-an-object or missing-field error |
| Json.Size | reflecxx/include/reflecxx/json_visitor.hpp:70 | `size()`; `Items` states that iteration has that many items |
| Json.Items | reflecxx/include/reflecxx/json_visitor.hpp:73-76 | iteration has `size()` items: the array's items, the object's values in key order, or the scalar itself |
| JsonVisitor.ToJsonValue | reflecxx/include/reflecxx/json_visitor.hpp:44 | the document `json(member)` builds for a member; `ConvertRoundTrip` states that `get<M>()` recovers the member from it |
| JsonVisitor.WriteInto | reflecxx/include/reflecxx/json_visitor.hpp:19-22 | what `to_json` leaves in a null or object document; `ToJson` and `WrittenNames` state it |
| JsonVisitor.WriteFields | reflecxx/include/reflecxx/json_visitor.hpp:38-48 | the visitor's writes leave the document unchanged for no visit and make it an object otherwise |
| JsonVisitor.Document.constructor | reflecxx/include/reflecxx/json_visitor.hpp:38-42 | the visitor refers to a document holding the given value |
| JsonVisitor.ToJson | reflecxx/include/reflecxx/json_visitor.hpp:19-22 | `to_json` on a null or object document writes every visited field; on any other document the first write throws and nothing changes; it compiles only when no record it reaches has reflected bases |
| JsonVisitor.WriteVisits | reflecxx/include/reflecxx/json_visitor.hpp:38-48 | the write loop performs the visitor's writes in order, or throws at the first one on a non-object |
| JsonVisitor.ConvertAll | reflecxx/include/reflecxx/json_visitor.hpp:73-76 | converting the items in turn yields at most one value per item, and one per item when nothing fails |
| JsonVisitor.ReadFieldInto | reflecxx/include/reflecxx/json_visitor.hpp:55-58 | one visitor call on an existing object changes at most that field's slot and keeps the slot set |
| JsonVisitor.UpdateFields | reflecxx/include/reflecxx/json_visitor.hpp:51-78 | the visitor over an existing object keeps its slot set |
| JsonVisitor.FromJson | reflecxx/include/reflecxx/json_visitor.hpp:24-27 | `from_json` leaves the object as the in-place read says (the fields read before any throw) and keeps it a valid instance |
| JsonVisitor.ReadVisits | reflecxx/include/reflecxx/json_visitor.hpp:51-58 | the read loop performs the visitor's calls in order, stops at the first throw, and keeps every slot typed |
| JsonVisitor.ReadVisit | reflecxx/include/reflecxx/json_visitor.hpp:55-58 | one call reads `doc.at(name)` into the member |
| JsonVisitor.FillCArray | reflecxx/include/reflecxx/json_visitor.hpp:73-76 | `arr[index++] = item.get<M>()` replaces the leading elements by the converted items, up to the first failure, and keeps the rest |
| JsonVisitor.Convert | reflecxx/include/reflecxx/json_visitor.hpp:63-66 | `doc.get<M>()`; `ConvertTyped` and `ConvertRoundTrip` state it |
| JsonVisitor.ReadMember | reflecxx/include/reflecxx/json_visitor.hpp:63-77 | `fromJson(member, doc)`; `ReadMemberTyped` and `ReadMemberRoundTrip` state it |
| JsonVisitor.ConvertFields | reflecxx/include/reflecxx/json_visitor.hpp:51-58 | `FromJsonVisitor` on a fresh object; `ConvertFieldsTyped` and `ConvertFieldsRoundTrip` state it |
| JsonVisitor.ReadInto | reflecxx/include/reflecxx/json_visitor.hpp:24-27 | what `from_json` leaves in an existing object; `FromJson` and `InPlaceAgreesWithFresh` state it |
| JsonVisitor.ConvertTyped | reflecxx/include/reflecxx/json_visitor.hpp:63-66 | a successful `get<M>()` yields a value of type `M` |
| JsonVisitor.ReadMemberTyped | reflecxx/include/reflecxx/json_visitor.hpp:63-77 | a member read yields a whole value of the member's type, or for a C array at most `N` typed leading elements |
| JsonVisitor.ConvertFieldsTyped | reflecxx/include/reflecxx/json_visitor.hpp:51-58 | reading into a fresh object, once it succeeds, fills exactly the visited slots, each with a value of its declared type |
| JsonProperties.WriteFieldsLookup | reflecxx/include/reflecxx/json_visitor.hpp:43-45 | with distinct names, every visited name holds its member's document after the writes, and every other key is unchanged |
| JsonProperties.WriteFieldsSorted | reflecxx/include/reflecxx/json_visitor.hpp:43-45 | the writes keep the document's members in key order |
| JsonProperties.ConvertAllInOrder | reflecxx/include/reflecxx/json_visitor.hpp:73-76 | the k-th value converted is the conversion of the k-th item, and a failure is the first item that fails |
| JsonProperties.SuccessNeedsKeys | reflecxx/include/reflecxx/json_visitor.hpp:51-78 | a successful in-place read means every visited name is in the document, and a C-array member's document has exactly `N` items |
| JsonProperties.FromJsonNeedsObject | reflecxx/include/reflecxx/json_visitor.hpp:57 | `from_json` from a document that is not an object throws at the first visited field and changes nothing |
| JsonProperties.FromJsonSizeMismatch | reflecxx/include/reflecxx/json_visitor.hpp:70-72 | a C-array first field whose document has the wrong size throws the size error before anything changes |
| JsonProperties.InPlaceAgreesWithFresh | reflecxx/include/reflecxx/json_visitor.hpp:51-78 | the in-place read and the fresh read fail together, with the same error, and store the same values in the visited slots |
| JsonProperties.FromJsonAgreesWithGet | reflecxx/include/reflecxx/json_visitor.hpp:24-27 | `from_json` into any object of the type throws exactly when `get<T>()` does, and otherwise leaves the value `get<T>()` returns |
| JsonProperties.ConvertRoundTrip | reflecxx/include/reflecxx/json_visitor.hpp:17-28 | converting the document written for a value of any field type gives that value back |
| JsonProperties.RecordRoundTrip | reflecxx/include/reflecxx/json_visitor.hpp:17-28 | the round trip for a nested record |
| JsonProperties.ArrayRoundTrip | reflecxx/include/reflecxx/json_visitor.hpp:63-77 | the round trip for an array of `N` elements |
| JsonProperties.ConvertAllRoundTrip | reflecxx/include/reflecxx/json_visitor.hpp:73-76 | converting the items written for some elements gives those elements, with no failure |
| JsonProperties.ReadMemberRoundTrip | reflecxx/include/reflecxx/json_visitor.hpp:63-77 | reading a member from the document written for it takes the whole value |
| JsonProperties.ConvertFieldsRoundTrip | reflecxx/include/reflecxx/json_visitor.hpp:51-58 | a fresh read from a document in which every visited name holds its slot's document succeeds and recovers every slot |
| JsonProperties.UpdateFieldsRoundTrip | reflecxx/include/reflecxx/json_visitor.hpp:51-58 | the in-place read of such a document succeeds, sets every visited slot and keeps the rest |
| JsonProperties.WritableNamesDistinct | test/json_visitor.hpp:5-6 | a record `to_json` compiles for is visited through its own fields alone, with distinct names, so the 1:1 field mapping holds for it |
| JsonProperties.RoundTrip | reflecxx/include/reflecxx/json_visitor.hpp:17-28 | for every type `to_json` compiles for, `from_json(to_json(t))` into any object of the same type yields `t` with no throw |
| JsonProperties.WrittenNames | reflecxx/include/reflecxx/json_visitor.hpp:43-45 | in `to_json(t)`, every visited name holds its field's document |
| JsonProperties.GetRoundTrip | reflecxx/include/reflecxx/json_visitor.hpp:17-28 | `get<T>()` on `to_json(t)` gives `t` |
| JsonFixtures.BasicsToJson | test/test_json_visitor.cpp:23 | the document of a `Basics` holds `b`, `i` and `d` in key order |
| JsonFixtures.ArrDoc | test/test_json_visitor.cpp:24-27 | the C-array field of the default `Wrapper` becomes an array of three `Basics` documents |
| JsonFixtures.StdarrDoc | test/test_json_visitor.cpp:28 | the `std::array` field becomes an array of two `Basics` documents |
| JsonFixtures.WrapperKeys | test/test_json_visitor.cpp:19-29 | writing the five fields of `Wrapper` into a null document gives the members in key order |
| JsonFixtures.WrapperToJson | test/test_json_visitor.cpp:32-39 | `to_json` of the default `Wrapper` is the hand-built document |
| JsonFixtures.TestRegistryFieldNames | test/generated/classes_reflecxx_generated.hpp:16-71 | no test record declares two fields of one name |
| JsonFixtures.TestRecordsWritable | test/test_json_visitor.cpp:32-39 | `to_json` compiles for `Basics` and for `Wrapper` |
| JsonFixtures.ChildClassConstVisitRejected | reflecxx/include/reflecxx/detail/visit.hpp:41-51 | a const `ChildClass` cannot be visited, so neither `to_json` nor `equalTo` compiles for it; a non-const one can be visited |
| JsonFixtures.WrapperFromJson | test/test_json_visitor.cpp:41-48 | `get<Wrapper>()` of the hand-built document is the default `Wrapper` |
| TestTypes.TestRegistryWellFormed | test/generated/classes_reflecxx_generated.hpp:16-71 | the generated tables, with `Basics` and `Wrapper`, form a well-formed registry |
| TestTypes.TestRegistryClassTables | test/generated/classes_reflecxx_generated.hpp:16-71 | the registry holds the four generated class tables entry by entry |
| TestTypes.BasicClassTraversal | test/generated/classes_reflecxx_generated.hpp:19-25 | `BasicClass` visits `b`, `i` and `d` |
| TestTypes.ChildClassTraversal | test/generated/classes_reflecxx_generated.hpp:35-40 | `ChildClass` visits `publicField`, then the whole of `BasicClass` |
| TestTypes.ChildClassNames | test/test_struct_visitor.cpp:115-122 | a visit of `ChildClass` makes four calls, named `publicField`, `b`, `i`, `d` |
| TestTypes.SecondLevelChildClassTraversal | test/generated/classes_reflecxx_generated.hpp:50-55 | `SecondLevelChildClass` visits `someField`, then the whole of `ChildClass` |
| TestTypes.SecondLevelChildClassNames | test/generated/classes_reflecxx_generated.hpp:50-55 | five calls: `someField`, then `ChildClass`'s four |
| TestTypes.ChildOfUnreflectedBaseClassTraversal | test/test_struct_visitor.cpp:134-140 | the unannotated base is not visited: exactly one call |
| TestTypes.EmptyTraversal | test/test_struct_visitor.cpp:72 | `Empty` makes no calls |
| TestTypes.BasicsTraversal | test/test_struct_visitor.cpp:82 | `Basics` makes three calls: `b`, `i`, `d` |
| TestTypes.WrapperTraversal | test/test_struct_visitor.cpp:92 | `Wrapper` makes five calls, with a nested record, a C array and a `std::array` among them |
| TestTypes.CountTypes | test/test_struct_visitor.cpp:41-53 | the counting tag visitor counts one `int` per `int` field and one other per other field |
| TestTypes.ChildClassCounts | test/test_struct_visitor.cpp:115-121 | `countAllTypes<ChildClass>()` is 4, two of them `int`s |
| TestTypes.BasicsValueHasType | test/test_json_visitor.cpp:14-15 | `Basics{b, i, d}` is a value of `Basics` |
| TestTypes.WrapperValueHasType | test/test_json_visitor.cpp:13-17 | a `Wrapper` built from well-typed fields is a value of `Wrapper` |
| TestTypes.TestVisitability | test/test_struct_visitor.cpp:150-151 | a local type without a table is not visitable, while `Basics` and the test enums are |
| TestEnums.TablesHaveDistinctNames | test/generated/enums_meta.hpp:26-43 | both generated tables have distinct NUL-free names |
| TestEnums.UnscopedNameExamples | test/test_enum_visitor.cpp:12-24 | `Unscoped` has 4 enumerators, `Fourth` is named "Fourth", and "Fourth" names `Fourth` |
| TestEnums.ScopedNameExamples | test/test_enum_visitor.cpp:13-25 | `Scoped` has 3 enumerators, `Third` is named "Third", and "Third" names `Third` |
| TestEnums.ScopedUnknownName | test/test_enum_visitor.cpp:30 | `fromName<Scoped>("fifth")` is the invalid-name error |
| TestEnums.ContainsExamples | test/test_enum_visitor.cpp:36-39 | 4 is an `Unscoped` value and 0 is not; 0 is a `Scoped` value and 3 is not |
| TestEnums.ScopedLists | test/test_enum_visitor.cpp:44-58 | `enumerators<Scoped>()` and `enumNames<Scoped>()` list the three in declaration order |
| Basics.LastCallOfDistinct | basics.cpp:31-46 | when each enumerator is visited once, the last call for an enumerator is its only call |
| Basics.ToIndex | basics.cpp:130-141 | `toIndex` is the value of the last call for the enumerator, or 0 when there is none |
| Basics.CountFunctor.constructor | basics.cpp:168 | the functor refers to the given counter |
| Basics.CountFunctor.Call | basics.cpp:170-173 | each call increments the referenced count by one |
| Basics.EnumCountFunctor2 | basics.cpp:176-182 | the functor-kept count is the number of acceptor calls |
| Basics.EnumChecks | basics.cpp:243-253 | the enum checks of `main`: 3 and 2 enumerators, a functor count of 2, `toIndex` 3 and 4, and `toString(MyEnum2::val2)` equal to "val2" |
| Basics.MyStruct.constructor | basics.cpp:255 | `MyStruct s{v1, v2}` holds those fields |
| Basics.Increment | basics.cpp:156-161 | `increment` adds one to each field of `MyStruct` in place |
| Basics.IncrementCheck | basics.cpp:255-257 | `MyStruct s{3, 1.5}` becomes `{4, 2.5}` |
| Basics.NestedReplacesMember | basics.cpp:88-100 | nested visitation replaces the single call for `s` by `MyStruct`'s calls, keeping the calls before it |
| Basics.FieldCount | basics.cpp:184-193 | `field_count` is the number of names the acceptor passes |
| Basics.GetName | basics.cpp:200-214 | `get_name<i>` is the name of call number i; with no such call the pointer is never assigned |
| Basics.StructChecks | basics.cpp:261-272 | the struct checks of `main`: 2 fields in `MyStruct`, 4 with nested visitation and 3 without, and `get_name<1, MyStruct>()` equal to "v2" |

## Left out

- Compile-time evaluation, templates, `constexpr` and `static_assert` are not modelled as such. A
  compile-time rejection is an `Error` value or a precondition. In particular, a const visit of a
  record with reflected bases is rejected (`static_cast<B&>` on a const object), so
  `Visiting.InstanceVisitCompiles`, `StructVisitor.StructComparable` and `JsonVisitor.Writable` are
  required by the instance visit (`VisitInstance`, `InstanceCalls`), the accumulating instance visit
  (`VisitAccumulateInstance`), `get<i>`, `compare`, `equalTo`, `lessThan`, `greaterThan` and
  `to_json`. Each excludes a const object whose table lists reflected bases; `Writable` also
  excludes such a record reached as a member or an array element, and `StructComparable` one
  reached as a C-array element.
- `remove_cvref_t` and `decay_t` clean a type before the table lookup; the model works with clean
  type identities only.
- Output: the `std::cout` in `basics.cpp` (lines 189 and 244 on) and the commented-out tracing are
  left out, as I/O.
- The code generator and its Python scripts are not part of this model, and neither is
  `attributes.hpp`. The generated tables of the test types are written out as constants.
- The shapes of `Basics`, `Wrapper` and `Empty` come from the tests' use of them, because their
  definitions are not part of this model: `Basics` is `{bool b; int i; double d;}`, and `Wrapper` is
  `{int i; double d; Basics b; Basics basicsArr[3]; std::array<Basics, 2> basicsStdarr;}`.
- Integer widths: `int`, `size_t` and the underlying types of enums are unbounded. Overflow of
  `count++` and `field++` is not modelled.
- `Basics.Increment`: `field++` on the `int` does not wrap at 32 bits.
- Floating point: `double` is `real`. Rounding and NaN are left out, and the JSON document holds the
  exact number.
- `nlohmann::json` is modelled only as far as the adapter uses it. Its conversions are these:
  - `get<bool>` needs a boolean;
  - `get<int>` takes an integer, a floating point number (truncated toward zero) or a boolean;
  - `get<double>` takes an integer or a floating point number;
  - `get` of an array type needs an array with at least `N` items and ignores the rest;
  - anything else throws.
  - Unsigned numbers, strings, `dump` and other document operations are left out.
- Exceptions are `Error` values. The state an exception leaves behind (the fields read before it) is
  modelled; unwinding is not.
- `tupleVisit` of the older detail header is the discarding `forEach` and is covered by it.
- `visitAccum` of the older detail header composes `chainvisit` exactly as `visitAccummulate`
  composes `forEach`. It is covered by `Visiting.ChainVisitIsForEachAccum` and `VisitAccumulate`.
- `BaseClassMemberChainVisitor` (detail/visit.hpp line 59) calls `visitAccum`, which only the older detail
  header declares. The model follows the evident intent, the recursive `visitAccummulate`.
- `typeAt` uses `tuple_type_t`, whose only definition in the repository is the empty default. The
  model gives it its evident meaning: the declared type of the i-th visited field.
- The reflecxx `forEachApply` (impl/struct_visitor_impl.hpp lines 112-115) has the same shape as the
  proto visitor-last `applyForEach`. Both are `ProtoStructVisitor.ApplyForEachPair`.
- Some definitions are written once in the model although the repository copies them:
  - the proto prototype's copies of `Extractor`, `ConstMatch`, `get`, `fieldCount`, `getName` and
    `applyForEach` are the same as reflecxx's and are modelled once in `StructVisitor`;
  - the function copies in `test/generated/enums_meta.hpp` are those of `EnumVisitor`;
  - the `strings_equal` of `basics.cpp` is that of `CStrings`;
  - the proto `json_visitor.hpp` copies (and `test/json_visitor.hpp`) are those of `JsonVisitor`.
- `basics.cpp`'s `get` stores a `const void*` and dereferences it, which is not valid C++ on a
  `const void*`. It is left out; `StructVisitor.Get` models the library's `get`.
- The value visit of `MyStruct2` in `basics.cpp` ignores its `visitNested` flag. Only the acceptor,
  which honours the flag, is modelled.
- The proto `visit` overloads with a `visitBaseClasses` flag are not modelled. The default, with
  bases, is.
- Diamond inheritance: a base reached twice is visited twice. The model keeps that, and proves that
  both visits are of the same field.
- `lessThan`: the model follows the code, which passes `std::less` to `compare`. That gives every
  field strictly below, and always false with a C-array field, because `op` on two equal lengths is
  false.
- A nested record's `operator==` is value equality. `std::array`'s `operator<` is the lexicographic
  order built from `<` alone.
- A pointer that is never assigned (`toString` and `get_name` with no matching call) reads as
  `None`. Reading it in C++ is undefined.
- C arrays are compared only when their elements are comparable records. A C array of scalars, or
  of C arrays, does not compile for `compare`, since each element goes to `compare` again and that
  needs a record table.
- `JsonVisitor.ReadMember` gives a C array of C arrays a `from_json` meaning, which the source does
  not have: `arr[index++] = item.get<M>()` cannot assign an array. No test type has such a field.
- Field types: the model has `bool`, `int`, `double`, registered records, C arrays and
  `std::array`. `visit`, `fieldCount`, `getName`, `typeAt` and `get` accept a public field of any
  type, such as a `std::string` or a struct without a table. Fields of other types are outside the
  model, and so are the comparison and JSON operators such types would need.
- `StructVisitor.ApplyForEach` is modelled for read-only visitors: `f` receives the fields' values.
  In the source it receives references, so a visitor given non-const arguments can write the fields
  in place; those writes are not modelled. The constness of each argument is not modelled either.
- `to_json` into a document that is neither null nor an object throws at the first write. The model
  returns the `NotAnObject` error and changes nothing.
- Concurrency does not arise: everything is single-threaded.

## Findings

| source | as written | input that shows it | evidently intended | confidence | as-written member | corrected member |
|---|---|---|---|---|---|---|
| proto/include/proto/impl/struct_visitor_impl.hpp:119-123 | `eql1` compares each field pair with `val1 == val2`; on a C-array field both operands decay to pointers, so it compares the addresses of the two arrays | two distinct `Wrapper` objects holding the same value (`i = 9`, `d = -2.2`, equal `Basics`, equal arrays): `eql1` is false | field-wise value equality, C arrays compared element by element | not executed | ProtoStructVisitor.Eql1MissesEqualWrappers | ProtoStructVisitor.Eql |
