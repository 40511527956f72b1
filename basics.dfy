/** The early prototype of visitation: hand-written acceptors that call a visitor once per
    enumerator or once per field, and the helpers built on them. Each helper is a visitor whose
    captured state the acceptor's calls update; the model runs those calls in order. */
module Basics {
  import opened Wrappers
  import opened CStrings
  import Proto = ProtoEnumVisitor

  datatype MyEnum = Val1 | Val2 | Val3
  datatype MyEnum2 = Val1 | Val2

  /** `Acceptor<MyEnum>::visit`: one call `visitor(e, name, val)` per enumerator, with the values
      0, 2 and 3; every name literal has an address of its own. */
  function MyEnumCalls(): seq<Proto.EnumCall<MyEnum>> {
    [Proto.EnumCall(MyEnum.Val1, Proto.CName(1, "val1"), 0),
     Proto.EnumCall(MyEnum.Val2, Proto.CName(2, "val2"), 2),
     Proto.EnumCall(MyEnum.Val3, Proto.CName(3, "val3"), 3)]
  }

  /** `Acceptor<MyEnum2>::visit`: the values are 0 and 4. */
  function MyEnum2Calls(): seq<Proto.EnumCall<MyEnum2>> {
    [Proto.EnumCall(MyEnum2.Val1, Proto.CName(4, "val1"), 0),
     Proto.EnumCall(MyEnum2.Val2, Proto.CName(5, "val2"), 4)]
  }

  /** Each enumerator is visited at most once, as in both acceptors. */
  predicate DistinctEnumerators<E(==)>(calls: seq<Proto.EnumCall<E>>) {
    forall j, k :: 0 <= j < k < |calls| ==> calls[j].enumerator != calls[k].enumerator
  }

  /** When every enumerator is visited once, the last call for an enumerator is its only call. */
  lemma LastCallOfDistinct<E>(calls: seq<Proto.EnumCall<E>>, k: nat)
    requires DistinctEnumerators(calls) && k < |calls|
    ensures Proto.LastWithEnumerator(calls, calls[k].enumerator) == Some(k)
  {
  }

  /** `toIndex(enumVal)`: the visitor assigns `index = val` on every call for `enumVal`, so the
      result is the underlying value of the last such call, or the value-initialised 0 when there
      is none. */
  method ToIndex<E(==)>(calls: seq<Proto.EnumCall<E>>, enumVal: E) returns (index: int)
    ensures Proto.LastWithEnumerator(calls, enumVal).None? ==> index == 0
    ensures Proto.LastWithEnumerator(calls, enumVal).Some? ==>
      index == calls[Proto.LastWithEnumerator(calls, enumVal).value].value
  {
    index := 0;
    for k := 0 to |calls|
      invariant Proto.LastWithEnumerator(calls[..k], enumVal).None? ==> index == 0
      invariant Proto.LastWithEnumerator(calls[..k], enumVal).Some? ==>
        index == calls[Proto.LastWithEnumerator(calls[..k], enumVal).value].value
    {
      assert calls[..k + 1][..k] == calls[..k];
      if calls[k].enumerator == enumVal {
        index := calls[k].value;
      }
    }
    assert calls[..|calls|] == calls;
  }

  /** The `int` a `CountFunctor` holds by reference. */
  class Counter {
    var value: int

    constructor (v: int)
      ensures value == v
    {
      value := v;
    }
  }

  /** `CountFunctor<E>`: a visitor that increments the count it refers to on every call. */
  class CountFunctor<E> {
    const capturedCount: Counter

    constructor (c: Counter)
      ensures capturedCount == c
    {
      capturedCount := c;
    }

    method Call(e: E, name: Proto.CName, val: int)
      modifies capturedCount
      ensures capturedCount.value == old(capturedCount.value) + 1
    {
      capturedCount.value := capturedCount.value + 1;
    }
  }

  /** `enumCountFunctor2<E>()`: the count of the acceptor's calls, kept by a functor. */
  method EnumCountFunctor2<E>(calls: seq<Proto.EnumCall<E>>) returns (count: int)
    ensures count == |calls|
  {
    var c := new Counter(0);
    var f := new CountFunctor<E>(c);
    for k := 0 to |calls|
      invariant c.value == k
    {
      f.Call(calls[k].enumerator, calls[k].name, calls[k].value);
    }
    count := c.value;
  }

  /** The checks of the prototype's `main` on the enum helpers. `enumCount2` counts the calls with
      a capturing visitor, and `toString` keeps the name of the last call for its enumerator: they
      are the visitors of the proto `enumSize` and `enumName`. */
  method EnumChecks() returns (n1: nat, n2: nat, n3: int, i3: int, i2: int, name2: Option<Proto.CName>)
    ensures n1 == 3 && n2 == 2 && n3 == 2
    ensures i3 == 3 && i2 == 4
    ensures name2.Some? && StringsEqual(Literal(name2.value.text), Literal("val2"))
  {
    n1 := Proto.EnumSize(MyEnumCalls());
    n2 := Proto.EnumSize(MyEnum2Calls());
    n3 := EnumCountFunctor2(MyEnum2Calls());
    LastCallOfDistinct(MyEnumCalls(), 2);
    i3 := ToIndex(MyEnumCalls(), MyEnum.Val3);
    LastCallOfDistinct(MyEnum2Calls(), 1);
    i2 := ToIndex(MyEnum2Calls(), MyEnum2.Val2);
    name2 := Proto.EnumName(MyEnum2Calls(), MyEnum2.Val2);
    LiteralText("val2");
    StringsEqualIsTextEquality(Literal(name2.value.text), Literal("val2"));
  }

  /** `MyStruct { int v1; double v2; }`, which `increment` updates in place. */
  class MyStruct {
    var v1: int
    var v2: real

    constructor (v1: int, v2: real)
      ensures this.v1 == v1 && this.v2 == v2
    {
      this.v1 := v1;
      this.v2 := v2;
    }
  }

  /** `increment(s)`: the value visit of `MyStruct` calls the visitor on `v1` and then on `v2`,
      and the visitor does `field++` on each. */
  method Increment(s: MyStruct)
    modifies s
    ensures s.v1 == old(s.v1) + 1 && s.v2 == old(s.v2) + 1.0
  {
    s.v1 := s.v1 + 1;
    s.v2 := s.v2 + 1.0;
  }

  /** `MyStruct s{3, 1.5}; increment(s);` leaves `{4, 2.5}`. */
  method IncrementCheck() returns (v1: int, v2: real)
    ensures v1 == 4 && v2 == 2.5
  {
    var s := new MyStruct(3, 1.5);
    Increment(s);
    v1, v2 := s.v1, s.v2;
  }

  /** `Acceptor<MyStruct>::visit`: one call per field name. */
  function MyStructNames(): seq<string> {
    ["v1", "v2"]
  }

  /** `Acceptor<MyStruct2>::visit(visitor, visitNested)`: `a` and `b`, then either the calls of
      `MyStruct`'s acceptor in place of `s`, or `s` itself. */
  function MyStruct2Names(visitNested: bool): seq<string> {
    ["a", "b"] + if visitNested then MyStructNames() else ["s"]
  }

  /** Nested visitation replaces the one call for `s` by one call per field of `MyStruct`: the
      calls before it are the same, and the nested calls are exactly `MyStruct`'s. */
  lemma NestedReplacesMember()
    ensures |MyStruct2Names(true)| == |MyStruct2Names(false)| - 1 + |MyStructNames()|
    ensures MyStruct2Names(true)[..2] == MyStruct2Names(false)[..2]
    ensures MyStruct2Names(true)[2..] == MyStructNames() && MyStruct2Names(false)[2] == "s"
  {
  }

  /** `field_count<T>()`: the visitor counts the names its acceptor passes. The loop mirrors that
      counting visitor and states only the count; `NestedReplacesMember` says which names the
      acceptor passes. */
  method FieldCount(names: seq<string>) returns (count: nat)
    ensures count == |names|
  {
    count := 0;
    for k := 0 to |names|
      invariant count == k
    {
      count := count + 1;
    }
  }

  /** `get_name<i, T>()`: the name passed at the call numbered `i` from 0. Without such a call
      the returned pointer is never assigned, which is `None` here. */
  method GetName(names: seq<string>, i: nat) returns (out: Option<string>)
    ensures i < |names| ==> out == Some(names[i])
    ensures i >= |names| ==> out.None?
  {
    var count: nat := 0;
    out := None;
    for k := 0 to |names|
      invariant count == k
      invariant i < k ==> out == Some(names[i])
      invariant i >= k ==> out.None?
    {
      if count == i {
        out := Some(names[k]);
      }
      count := count + 1;
    }
  }

  /** The checks of the prototype's `main` on the struct helpers: two fields in `MyStruct`, four
      visits of `MyStruct2` with nested visitation (the default) and three without, and
      `get_name<1, MyStruct>()` is "v2". */
  method StructChecks() returns (c1: nat, c2: nat, c3: nat, name1: Option<string>)
    ensures c1 == 2 && c2 == 4 && c3 == 3
    ensures name1.Some? && StringsEqual(Literal(name1.value), Literal("v2"))
  {
    c1 := FieldCount(MyStructNames());
    c2 := FieldCount(MyStruct2Names(true));
    c3 := FieldCount(MyStruct2Names(false));
    name1 := GetName(MyStructNames(), 1);
    LiteralText("v2");
    StringsEqualIsTextEquality(Literal(name1.value), Literal("v2"));
  }
}
