/** The visitor-driven enum introspection of the proto prototype. Every operation runs a visitor
    over the calls `visitor(enumerator, name, value)` of the generated acceptor, one per enumerator
    in declaration order, and updates what the visitor captured. Unlike `EnumVisitor` the last
    match wins, `enumName` yields a null pointer when nothing matches, and `fromName` compares name
    pointers rather than characters. */
module ProtoEnumVisitor {
  import opened Wrappers
  import opened Types
  import opened CStrings
  import opened EnumVisitor

  /** A `const char*`: the address it holds and the text stored there. */
  datatype CName = CName(addr: nat, text: string)

  /** One call `visitor(enumerator, name, value)` made by the acceptor. */
  datatype EnumCall<E> = EnumCall(enumerator: E, name: CName, value: int)

  /** `enumSize()`: the visitor counts its calls. The loop mirrors that counting visitor over the
      acceptor's calls and states only the count; which calls there are is the table's business. */
  method EnumSize<E>(calls: seq<EnumCall<E>>) returns (count: nat)
    ensures count == |calls|
  {
    count := 0;
    for k := 0 to |calls|
      invariant count == k
    {
      count := count + 1;
    }
  }

  /** The last call whose enumerator is `e`, if any. */
  function LastWithEnumerator<E(==)>(calls: seq<EnumCall<E>>, e: E): (r: Option<nat>)
    ensures r.Some? ==>
      r.value < |calls| && calls[r.value].enumerator == e &&
      forall j :: r.value < j < |calls| ==> calls[j].enumerator != e
    ensures r.None? ==> forall j :: 0 <= j < |calls| ==> calls[j].enumerator != e
    decreases |calls|
  {
    if calls == [] then None
    else if calls[|calls| - 1].enumerator == e then Some(|calls| - 1)
    else LastWithEnumerator(calls[..|calls| - 1], e)
  }

  /** The last call whose name is the pointer `p`, if any. */
  function LastWithName<E>(calls: seq<EnumCall<E>>, p: CName): (r: Option<nat>)
    ensures r.Some? ==>
      r.value < |calls| && calls[r.value].name.addr == p.addr &&
      forall j :: r.value < j < |calls| ==> calls[j].name.addr != p.addr
    ensures r.None? ==> forall j :: 0 <= j < |calls| ==> calls[j].name.addr != p.addr
    decreases |calls|
  {
    if calls == [] then None
    else if calls[|calls| - 1].name.addr == p.addr then Some(|calls| - 1)
    else LastWithName(calls[..|calls| - 1], p)
  }

  /** What `enumName(target)` returns: the name of the last call for `target`, or a null pointer. */
  function NameOfLast<E(==)>(calls: seq<EnumCall<E>>, target: E): Option<CName> {
    match LastWithEnumerator(calls, target)
    case Some(i) => Some(calls[i].name)
    case None => None
  }

  /** What `fromName(targetName)` returns: the enumerator of the last call whose name is the same
      pointer, or the "No enumerator for name" failure. */
  function EnumeratorAt<E>(calls: seq<EnumCall<E>>, targetName: CName): Result<E, Error> {
    match LastWithName(calls, targetName)
    case Some(i) => Ok(calls[i].enumerator)
    case None => Err(UnknownEnumeratorName(targetName.text))
  }

  /** `enumName(target)`: `targetName` starts null and takes `name` on every call for `target`. */
  method EnumName<E(==)>(calls: seq<EnumCall<E>>, target: E) returns (targetName: Option<CName>)
    ensures targetName == NameOfLast(calls, target)
  {
    targetName := None;
    for k := 0 to |calls|
      invariant targetName == NameOfLast(calls[..k], target)
    {
      assert calls[..k + 1][..k] == calls[..k];
      if calls[k].enumerator == target {
        targetName := Some(calls[k].name);
      }
    }
    assert calls[..|calls|] == calls;
  }

  /** `fromName(targetName)`: `e` and `found` are set on every call whose name is the pointer
      `targetName`; nothing found throws. */
  method FromName<E(0)>(calls: seq<EnumCall<E>>, targetName: CName) returns (r: Result<E, Error>)
    ensures r == EnumeratorAt(calls, targetName)
  {
    var e: E := *;  // `EnumType e{}`: read only once something was found
    var found := false;
    for k := 0 to |calls|
      invariant found == LastWithName(calls[..k], targetName).Some?
      invariant found ==> e == calls[LastWithName(calls[..k], targetName).value].enumerator
    {
      assert calls[..k + 1][..k] == calls[..k];
      if calls[k].name.addr == targetName.addr {
        e := calls[k].enumerator;
        found := true;
      }
    }
    assert calls[..|calls|] == calls;
    if !found {
      return Err(UnknownEnumeratorName(targetName.text));
    }
    return Ok(e);
  }

  /** `enumNames()`: the visitor writes `names[count]` and counts. */
  method EnumNames<E>(calls: seq<EnumCall<E>>) returns (names: seq<CName>)
    ensures |names| == |calls|
    ensures forall k :: 0 <= k < |calls| ==> names[k] == calls[k].name
  {
    var arr := new CName[|calls|](_ => CName(0, []));
    var count := 0;
    for k := 0 to |calls|
      invariant count == k
      invariant forall j :: 0 <= j < k ==> arr[j] == calls[j].name
    {
      arr[count] := calls[k].name;
      count := count + 1;
    }
    names := arr[..];
  }

  /** `enumerators()`: the visitor writes `arr[count]` and counts. */
  method Enumerators<E(0)>(calls: seq<EnumCall<E>>) returns (es: seq<E>)
    ensures |es| == |calls|
    ensures forall k :: 0 <= k < |calls| ==> es[k] == calls[k].enumerator
  {
    var arr := new E[|calls|];
    var count := 0;
    for k := 0 to |calls|
      invariant count == k
      invariant forall j :: 0 <= j < k ==> arr[j] == calls[j].enumerator
    {
      arr[count] := calls[k].enumerator;
      count := count + 1;
    }
    es := arr[..];
  }

  /** `enumContains(targetValue)`: `contains` is set by any call with that value; every call is
      made, none returns early. */
  method EnumContains<E>(calls: seq<EnumCall<E>>, v: int) returns (contains: bool)
    ensures contains <==> exists k :: 0 <= k < |calls| && calls[k].value == v
  {
    contains := false;
    for k := 0 to |calls|
      invariant contains <==> exists j :: 0 <= j < k && calls[j].value == v
    {
      if calls[k].value == v {
        contains := true;
      }
    }
  }

  /** The generated table the same acceptor stands for: enumerators, name texts and values. */
  function AsTable<E>(calls: seq<EnumCall<E>>): (table: seq<Enumerator<E>>)
    ensures |table| == |calls|
    ensures forall k :: 0 <= k < |calls| ==>
      table[k] == Enumerator(calls[k].enumerator, calls[k].name.text, calls[k].value)
  {
    seq(|calls|, k requires 0 <= k < |calls| => Enumerator(calls[k].enumerator, calls[k].name.text, calls[k].value))
  }

  /** When `target` occurs once, first match and last match coincide: both versions of `enumName`
      give its name, and both fail together when it does not occur. */
  lemma EnumNameVersionsAgree<E>(calls: seq<EnumCall<E>>, target: E, i: nat)
    requires i < |calls| && calls[i].enumerator == target
    requires forall j :: 0 <= j < |calls| && j != i ==> calls[j].enumerator != target
    ensures NameOfLast(calls, target) == Some(calls[i].name)
    ensures NameOf(AsTable(calls), target) == Ok(calls[i].name.text)
  {
    assert AsTable(calls)[i].enumerator == target;
    var f := FirstWithEnumerator(AsTable(calls), target);
    assert f.Some?;
    assert AsTable(calls)[f.value].enumerator == calls[f.value].enumerator;
  }

  /** An enumerator that is missing from the calls: the proto `enumName` yields null, the table
      version fails. */
  lemma EnumNameMissing<E>(calls: seq<EnumCall<E>>, target: E)
    requires forall j :: 0 <= j < |calls| ==> calls[j].enumerator != target
    ensures NameOfLast(calls, target) == None
    ensures NameOf(AsTable(calls), target) == Err(UnknownEnumerator)
  {
    assert forall j :: 0 <= j < |calls| ==> AsTable(calls)[j].enumerator != target;
  }

  /** Two names for one enumerator value (`enum { A = 0, B = 0 }`): the table version names the
      first, the proto version the last. */
  lemma AliasedEnumeratorNames()
    ensures var calls := [EnumCall(0, CName(1, "A"), 0), EnumCall(0, CName(2, "B"), 0)];
      NameOf(AsTable(calls), 0) == Ok("A") && NameOfLast(calls, 0) == Some(CName(2, "B"))
  {
    var calls := [EnumCall(0, CName(1, "A"), 0), EnumCall(0, CName(2, "B"), 0)];
    assert AsTable(calls)[0].enumerator == 0;
  }

  /** The proto `fromName` matches the pointer, not the text: a copy of a name stored elsewhere is
      not found, while the original pointer is, and the table version finds the copy by its
      characters. */
  lemma FromNameComparesPointers<E>(calls: seq<EnumCall<E>>, i: nat, copy: CName)
    requires i < |calls| && copy.text == calls[i].name.text && '\0' !in copy.text
    requires forall j :: 0 <= j < |calls| ==> calls[j].name.addr != copy.addr
    ensures EnumeratorAt(calls, copy) == Err(UnknownEnumeratorName(copy.text))
    ensures EnumeratorAt(calls, calls[i].name).Ok?
    ensures EnumeratorNamed(AsTable(calls), Literal(copy.text)).Ok?
  {
    assert LastWithName(calls, calls[i].name).Some?;
    NameMatches(AsTable(calls), i, Literal(copy.text));
    LiteralText(copy.text);
    assert FirstWithName(AsTable(calls), Literal(copy.text)).Some?;
  }
}
