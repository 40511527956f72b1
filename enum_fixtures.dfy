/** The generated enumerator tables of the test enums `Unscoped` (`First = 2`, then counting up) and
    `Scoped` (from 0), and what the enum functions give on them. */
module TestEnums {
  import opened Wrappers
  import opened Types
  import opened CStrings
  import opened EnumVisitor

  datatype Unscoped = First | Second | Third | Fourth
  datatype Scoped = First | Second | Third

  const UnscopedTable: seq<Enumerator<Unscoped>> := [
    Enumerator(Unscoped.First, "First", 2),
    Enumerator(Unscoped.Second, "Second", 3),
    Enumerator(Unscoped.Third, "Third", 4),
    Enumerator(Unscoped.Fourth, "Fourth", 5)
  ]

  const ScopedTable: seq<Enumerator<Scoped>> := [
    Enumerator(Scoped.First, "First", 0),
    Enumerator(Scoped.Second, "Second", 1),
    Enumerator(Scoped.Third, "Third", 2)
  ]

  /** Both tables have distinct names, so `fromName` inverts `enumName` on them. */
  lemma TablesHaveDistinctNames()
    ensures DistinctNames(UnscopedTable) && DistinctNames(ScopedTable)
  {
  }

  /** `enumName(Fourth)` is "Fourth" and `fromName<Unscoped>("Fourth")` is `Fourth`. */
  lemma UnscopedNameExamples()
    ensures EnumSize(UnscopedTable) == 4
    ensures NameOf(UnscopedTable, Unscoped.Fourth) == Ok("Fourth")
    ensures EnumeratorNamed(UnscopedTable, Literal("Fourth")) == Ok(Unscoped.Fourth)
  {
    UnscopedFourthName();
    TablesHaveDistinctNames();
    NameRoundTrip(UnscopedTable, Unscoped.Fourth);
  }

  lemma UnscopedFourthName()
    ensures NameOf(UnscopedTable, Unscoped.Fourth) == Ok("Fourth")
  {
    assert FirstWithEnumerator(UnscopedTable, Unscoped.Fourth) == Some(3);
  }

  /** `enumName(Scoped::Third)` is "Third" and `fromName<Scoped>("Third")` is `Scoped::Third`. */
  lemma ScopedNameExamples()
    ensures EnumSize(ScopedTable) == 3
    ensures NameOf(ScopedTable, Scoped.Third) == Ok("Third")
    ensures EnumeratorNamed(ScopedTable, Literal("Third")) == Ok(Scoped.Third)
  {
    ScopedThirdName();
    TablesHaveDistinctNames();
    NameRoundTrip(ScopedTable, Scoped.Third);
  }

  lemma ScopedThirdName()
    ensures NameOf(ScopedTable, Scoped.Third) == Ok("Third")
  {
    assert FirstWithEnumerator(ScopedTable, Scoped.Third) == Some(2);
  }

  /** `fromName<Scoped>("fifth")` throws: no name matches. */
  lemma ScopedUnknownName()
    ensures EnumeratorNamed(ScopedTable, Literal("fifth")) == Err(UnknownEnumeratorName("fifth"))
  {
    var fifth := Literal("fifth");
    LiteralText("fifth");
    TablesHaveDistinctNames();
    forall j | 0 <= j < |ScopedTable| ensures !StringsEqual(Literal(ScopedTable[j].name), fifth) {
      NameMatches(ScopedTable, j, fifth);
    }
    assert FirstWithName(ScopedTable, fifth) == None;
  }

  /** `enumContains`: 4 is an `Unscoped` value and 0 is not; 0 is a `Scoped` value and 3 is not. */
  method ContainsExamples() returns (u4: bool, u0: bool, s0: bool, s3: bool)
    ensures u4 && !u0 && s0 && !s3
  {
    u4 := EnumContains(UnscopedTable, 4);
    assert UnscopedTable[2].value == 4;
    u0 := EnumContains(UnscopedTable, 0);
    s0 := EnumContains(ScopedTable, 0);
    assert ScopedTable[0].value == 0;
    s3 := EnumContains(ScopedTable, 3);
  }

  /** `enumerators<Scoped>()` and `enumNames<Scoped>()`, index-aligned. */
  method ScopedLists() returns (es: seq<Scoped>, names: seq<string>)
    ensures es == [Scoped.First, Scoped.Second, Scoped.Third]
    ensures names == ["First", "Second", "Third"]
  {
    es := Enumerators(ScopedTable);
    names := EnumNames(ScopedTable);
  }
}
