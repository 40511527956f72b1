/** Enum introspection over the generated `MetaEnum<E>::enumerators` table: size, name lookup,
    name-to-enumerator lookup, the lists of names and enumerators, and containment of a raw value.
    Lookups return the first matching entry; a failed lookup throws, here an `Err`. */
module EnumVisitor {
  import opened Wrappers
  import opened Types
  import opened CStrings

  /** `enumSize<E>()`: the size of the table. */
  function EnumSize<E>(table: seq<Enumerator<E>>): nat {
    |table|
  }

  /** The first entry whose enumerator is `e`, if any. */
  function FirstWithEnumerator<E(==)>(table: seq<Enumerator<E>>, e: E): (r: Option<nat>)
    ensures r.Some? ==>
      r.value < |table| && table[r.value].enumerator == e &&
      forall j :: 0 <= j < r.value ==> table[j].enumerator != e
    ensures r.None? ==> forall j :: 0 <= j < |table| ==> table[j].enumerator != e
    decreases |table|
  {
    if table == [] then None
    else if table[0].enumerator == e then Some(0)
    else match FirstWithEnumerator(table[1..], e)
         case None => None
         case Some(i) => Some(i + 1)
  }

  /** The first entry whose name, as a C string, `strings_equal` matches `s`, if any. */
  function FirstWithName<E>(table: seq<Enumerator<E>>, s: seq<char>): (r: Option<nat>)
    requires IsCString(s)
    ensures r.Some? ==>
      r.value < |table| && StringsEqual(Literal(table[r.value].name), s) &&
      forall j :: 0 <= j < r.value ==> !StringsEqual(Literal(table[j].name), s)
    ensures r.None? ==> forall j :: 0 <= j < |table| ==> !StringsEqual(Literal(table[j].name), s)
  {
    FirstWithNameFrom(table, s, 0)
  }

  /** The first entry from index `i` on whose name matches `s`, if any. */
  function FirstWithNameFrom<E>(table: seq<Enumerator<E>>, s: seq<char>, i: nat): (r: Option<nat>)
    requires IsCString(s) && i <= |table|
    ensures r.Some? ==>
      i <= r.value < |table| && StringsEqual(Literal(table[r.value].name), s) &&
      forall j :: i <= j < r.value ==> !StringsEqual(Literal(table[j].name), s)
    ensures r.None? ==> forall j :: i <= j < |table| ==> !StringsEqual(Literal(table[j].name), s)
    decreases |table| - i
  {
    if i == |table| then None
    else if StringsEqual(Literal(table[i].name), s) then Some(i)
    else FirstWithNameFrom(table, s, i + 1)
  }

  /** What `enumName(e)` returns: the name of the first entry for `e`, or the "Invalid enumerator."
      failure. */
  function NameOf<E(==)>(table: seq<Enumerator<E>>, e: E): Result<string, Error> {
    match FirstWithEnumerator(table, e)
    case Some(i) => Ok(table[i].name)
    case None => Err(UnknownEnumerator)
  }

  /** What `fromName(s)` returns: the enumerator of the first entry whose name matches `s`, or the
      "No enumerator for name" failure. */
  function EnumeratorNamed<E>(table: seq<Enumerator<E>>, s: seq<char>): Result<E, Error>
    requires IsCString(s)
  {
    match FirstWithName(table, s)
    case Some(i) => Ok(table[i].enumerator)
    case None => Err(UnknownEnumeratorName(Text(s)))
  }

  /** `enumName(enumerator)`: scans the table and returns at the first entry for the enumerator. */
  method EnumName<E(==)>(table: seq<Enumerator<E>>, e: E) returns (r: Result<string, Error>)
    ensures r == NameOf(table, e)
  {
    for i := 0 to |table|
      invariant forall j :: 0 <= j < i ==> table[j].enumerator != e
    {
      if table[i].enumerator == e {
        return Ok(table[i].name);
      }
    }
    return Err(UnknownEnumerator);
  }

  /** `fromName(enumeratorName)`: scans the table and returns at the first entry whose name
      `strings_equal` matches. */
  method FromName<E>(table: seq<Enumerator<E>>, s: seq<char>) returns (r: Result<E, Error>)
    requires IsCString(s)
    ensures r == EnumeratorNamed(table, s)
  {
    for i := 0 to |table|
      invariant forall j :: 0 <= j < i ==> !StringsEqual(Literal(table[j].name), s)
    {
      if StringsEqual(Literal(table[i].name), s) {
        return Ok(table[i].enumerator);
      }
    }
    return Err(UnknownEnumeratorName(Text(s)));
  }

  /** `enumNames()`: an array of `enumSize` names filled by index. */
  method EnumNames<E>(table: seq<Enumerator<E>>) returns (names: seq<string>)
    ensures |names| == EnumSize(table)
    ensures forall i :: 0 <= i < |names| ==> names[i] == table[i].name
  {
    var arr := new string[|table|];
    for i := 0 to |table|
      invariant forall j :: 0 <= j < i ==> arr[j] == table[j].name
    {
      arr[i] := table[i].name;
    }
    names := arr[..];
  }

  /** `enumerators()`: an array of `enumSize` enumerators, value-initialised and then filled by
      index. */
  method Enumerators<E(0)>(table: seq<Enumerator<E>>) returns (es: seq<E>)
    ensures |es| == EnumSize(table)
    ensures forall i :: 0 <= i < |es| ==> es[i] == table[i].enumerator
  {
    var arr := new E[|table|];
    for i := 0 to |table|
      invariant forall j :: 0 <= j < i ==> arr[j] == table[j].enumerator
    {
      arr[i] := table[i].enumerator;
    }
    es := arr[..];
  }

  /** `enumContains(targetValue)`: true as soon as an entry has that underlying value. */
  method EnumContains<E>(table: seq<Enumerator<E>>, v: int) returns (r: bool)
    ensures r <==> exists i :: 0 <= i < |table| && table[i].value == v
  {
    for i := 0 to |table|
      invariant forall j :: 0 <= j < i ==> table[j].value != v
    {
      if table[i].value == v {
        return true;
      }
    }
    return false;
  }

  /** The table's names are pairwise distinct and hold no NUL, as the generator emits them. */
  predicate DistinctNames<E>(table: seq<Enumerator<E>>) {
    (forall i :: 0 <= i < |table| ==> '\0' !in table[i].name) &&
    forall i, j :: 0 <= i < j < |table| ==> table[i].name != table[j].name
  }

  /** `enumName` finds a name for every enumerator in the table and fails for any other. */
  lemma NameOfFinds<E>(table: seq<Enumerator<E>>, e: E)
    ensures NameOf(table, e).Ok? <==> exists i :: 0 <= i < |table| && table[i].enumerator == e
    ensures NameOf(table, e).Err? ==> NameOf(table, e).error == UnknownEnumerator
  {
    if i :| 0 <= i < |table| && table[i].enumerator == e {
      assert FirstWithEnumerator(table, e).Some?;
    }
  }

  /** A name matches an entry exactly when it is that entry's name. */
  lemma {:induction false} NameMatches<E>(table: seq<Enumerator<E>>, i: nat, s: seq<char>)
    requires i < |table| && '\0' !in table[i].name && IsCString(s)
    ensures StringsEqual(Literal(table[i].name), s) <==> Text(s) == table[i].name
  {
    StringsEqualIsTextEquality(Literal(table[i].name), s);
    LiteralText(table[i].name);
  }

  /** With distinct names, `fromName(enumName(e)) == e` for every enumerator in the table. */
  lemma NameRoundTrip<E>(table: seq<Enumerator<E>>, e: E)
    requires DistinctNames(table) && NameOf(table, e).Ok?
    ensures EnumeratorNamed(table, Literal(NameOf(table, e).value)) == Ok(e)
  {
    var i := FirstWithEnumerator(table, e).value;
    var s := Literal(table[i].name);
    NameMatches(table, i, s);
    LiteralText(table[i].name);
    var k := FirstWithName(table, s);
    assert k.Some?;
    NameMatches(table, k.value, s);
    assert table[k.value].name == table[i].name;
  }

  /** With distinct enumerators as well, `enumName(fromName(s))` is the text of `s`. */
  lemma EnumeratorRoundTrip<E>(table: seq<Enumerator<E>>, s: seq<char>)
    requires DistinctNames(table) && IsCString(s) && EnumeratorNamed(table, s).Ok?
    requires forall i, j :: 0 <= i < j < |table| ==> table[i].enumerator != table[j].enumerator
    ensures NameOf(table, EnumeratorNamed(table, s).value) == Ok(Text(s))
  {
    var k := FirstWithName(table, s).value;
    NameMatches(table, k, s);
    var i := FirstWithEnumerator(table, table[k].enumerator).value;
    assert i == k;
  }
}
