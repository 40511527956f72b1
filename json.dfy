/** The document model of the JSON library the adapter targets, nlohmann::json 3.x with its
    default `std::map` objects: a document is null, a boolean, an integer, a floating point number,
    an array or an object whose members are kept in key order. Only what the adapter uses is
    modelled: `operator[]` with a key, `at` with a key, `size()` and iteration. */
module Json {
  import opened Wrappers

  datatype Json =
    | JNull
    | JBool(b: bool)
    | JInt(i: int)
    | JReal(r: real)
    | JArray(items: seq<Json>)
    | JObject(members: seq<(string, Json)>)

  /** `std::less<std::string>`: the lexicographic order on characters, a proper prefix first. */
  predicate KeyLess(a: string, b: string)
    decreases |a|
  {
    if a == [] then b != []
    else if b == [] then false
    else a[0] < b[0] || (a[0] == b[0] && KeyLess(a[1..], b[1..]))
  }

  lemma {:induction false} KeyLessIrreflexive(a: string)
    ensures !KeyLess(a, a)
    decreases |a|
  {
    if a != [] {
      KeyLessIrreflexive(a[1..]);
    }
  }

  lemma {:induction false} KeyLessAsymmetric(a: string, b: string)
    requires KeyLess(a, b)
    ensures !KeyLess(b, a)
    decreases |a|
  {
    if a != [] && a[0] == b[0] {
      KeyLessAsymmetric(a[1..], b[1..]);
    }
  }

  /** Two different keys are ordered one way or the other. */
  lemma {:induction false} KeyLessTotal(a: string, b: string)
    requires a != b
    ensures KeyLess(a, b) || KeyLess(b, a)
    decreases |a|
  {
    if a != [] && b != [] && a[0] == b[0] {
      assert a == [a[0]] + a[1..] && b == [b[0]] + b[1..];
      KeyLessTotal(a[1..], b[1..]);
    }
  }

  /** A common prefix does not change the order of two keys. */
  lemma {:induction false} KeyLessPrefix(p: string, a: string, b: string)
    requires KeyLess(a, b)
    ensures KeyLess(p + a, p + b)
    decreases |p|
  {
    if p != [] {
      KeyLessPrefix(p[1..], a, b);
      assert (p + a)[0] == p[0] == (p + b)[0];
      assert (p + a)[1..] == p[1..] + a && (p + b)[1..] == p[1..] + b;
    } else {
      assert p + a == a && p + b == b;
    }
  }

  /** The members are in strictly increasing key order, as a `std::map` iterates them. */
  predicate Sorted(ms: seq<(string, Json)>) {
    forall k :: 0 <= k < |ms| - 1 ==> KeyLess(ms[k].0, ms[k + 1].0)
  }

  /** The value stored under `key`: `std::map::find`. */
  function Get(ms: seq<(string, Json)>, key: string): (r: Option<Json>)
    ensures r.None? <==> forall k :: 0 <= k < |ms| ==> ms[k].0 != key
    ensures r.Some? ==> exists k :: 0 <= k < |ms| && ms[k] == (key, r.value)
  {
    if ms == [] then None
    else if ms[0].0 == key then Some(ms[0].1)
    else Get(ms[1..], key)
  }

  /** Insert-or-assign into a sorted member list: the member for `key` is replaced where it is, or
      a new one goes before the first larger key. */
  function Insert(ms: seq<(string, Json)>, key: string, x: Json): seq<(string, Json)> {
    if ms == [] then [(key, x)]
    else if ms[0].0 == key then [(key, x)] + ms[1..]
    else if KeyLess(key, ms[0].0) then [(key, x)] + ms
    else [ms[0]] + Insert(ms[1..], key, x)
  }

  /** After inserting, `key` holds `x`, every other key holds what it held, the first member is
      the new one or the old first, and sorted members stay sorted. */
  lemma InsertSpec(ms: seq<(string, Json)>, key: string, x: Json)
    ensures var r := Insert(ms, key, x);
      Get(r, key) == Some(x) &&
      (forall other :: other != key ==> Get(r, other) == Get(ms, other)) &&
      r != [] && (r[0].0 == key || (ms != [] && r[0] == ms[0])) &&
      (Sorted(ms) ==> Sorted(r))
  {
    InsertGet(ms, key, x);
    if Sorted(ms) {
      InsertSorted(ms, key, x);
    }
  }

  lemma {:induction false} InsertGet(ms: seq<(string, Json)>, key: string, x: Json)
    ensures var r := Insert(ms, key, x);
      Get(r, key) == Some(x) &&
      (forall other :: other != key ==> Get(r, other) == Get(ms, other)) &&
      r != [] && (r[0].0 == key || (ms != [] && r[0] == ms[0]))
  {
    if ms != [] && ms[0].0 != key && !KeyLess(key, ms[0].0) {
      InsertGet(ms[1..], key, x);
      assert Insert(ms, key, x) == [ms[0]] + Insert(ms[1..], key, x);
    }
  }

  lemma {:induction false} InsertSorted(ms: seq<(string, Json)>, key: string, x: Json)
    requires Sorted(ms)
    ensures Sorted(Insert(ms, key, x))
  {
    if ms != [] && ms[0].0 != key && !KeyLess(key, ms[0].0) {
      SortedTail(ms);
      InsertSorted(ms[1..], key, x);
      InsertGet(ms[1..], key, x);
      KeyLessTotal(key, ms[0].0);
      var r := Insert(ms, key, x);
      var rest := Insert(ms[1..], key, x);
      assert r == [ms[0]] + rest;
      forall k | 0 <= k < |r| - 1 ensures KeyLess(r[k].0, r[k + 1].0) {
        if k > 0 {
          assert r[k] == rest[k - 1] && r[k + 1] == rest[k];
        }
      }
    }
  }

  lemma SortedTail(ms: seq<(string, Json)>)
    requires Sorted(ms) && ms != []
    ensures Sorted(ms[1..])
  {
    forall k | 0 <= k < |ms[1..]| - 1 ensures KeyLess(ms[1..][k].0, ms[1..][k + 1].0) {
      assert ms[1..][k] == ms[k + 1] && ms[1..][k + 1] == ms[k + 2];
    }
  }

  /** In a sorted member list, a key smaller than the first goes in front. */
  lemma InsertBefore(ms: seq<(string, Json)>, key: string, x: Json)
    requires ms != [] && KeyLess(key, ms[0].0)
    ensures Insert(ms, key, x) == [(key, x)] + ms
  {
    KeyLessIrreflexive(key);
  }

  /** A key larger than the first leaves the first member in front and goes into the rest. */
  lemma InsertAfter(ms: seq<(string, Json)>, key: string, x: Json, rest: seq<(string, Json)>)
    requires ms != [] && ms[1..] == rest && KeyLess(ms[0].0, key)
    ensures Insert(ms, key, x) == [ms[0]] + Insert(rest, key, x)
  {
    KeyLessIrreflexive(key);
    if KeyLess(key, ms[0].0) {
      KeyLessAsymmetric(ms[0].0, key);
    }
  }

  /** `doc[key] = x`: a null document first becomes an empty object; the member for `key` then
      holds `x` and every other member is kept. */
  function SetKey(doc: Json, key: string, x: Json): (r: Json)
    requires doc.JNull? || doc.JObject?
    ensures r.JObject? && Get(r.members, key) == Some(x)
    ensures forall other :: other != key ==>
      Get(r.members, other) == if doc.JNull? then None else Get(doc.members, other)
    ensures (doc.JNull? || Sorted(doc.members)) ==> Sorted(r.members)
  {
    match doc
    case JObject(ms) => InsertSpec(ms, key, x); JObject(Insert(ms, key, x))
    case _ => InsertSpec([], key, x); JObject(Insert([], key, x))
  }

  /** `doc.at(key)`: the member for `key`; a document that is not an object, or an object without
      that key, throws. This is the definition of the library's `at()` the model relies on, not a
      property proved of it; the adapter's properties are proved on top of it. */
  function Lookup(doc: Json, key: string): (r: Result<Json, Error>)
    ensures r.Ok? <==> doc.JObject? && Get(doc.members, key).Some?
    ensures r.Ok? ==> r.value == Get(doc.members, key).value
    ensures !doc.JObject? ==> r == Err(NotAnObject(key))
    ensures doc.JObject? && Get(doc.members, key).None? ==> r == Err(MissingField(key))
  {
    match doc
    case JObject(ms) =>
      (match Get(ms, key)
       case Some(x) => Ok(x)
       case None => Err(MissingField(key)))
    case _ => Err(NotAnObject(key))
  }

  /** `doc.size()`: 0 for null, the number of items or members of an array or an object, and 1 for
      any other value. */
  function Size(doc: Json): nat {
    match doc
    case JNull => 0
    case JArray(items) => |items|
    case JObject(ms) => |ms|
    case _ => 1
  }

  /** What `for (auto& item : doc)` visits: nothing for null, the items of an array, the member
      values of an object in key order, and the value itself for anything else. Like `Lookup`, a
      definition of the library's iteration, not a proved property. */
  function Items(doc: Json): (r: seq<Json>)
    ensures |r| == Size(doc)
    ensures doc.JArray? ==> r == doc.items
    ensures doc.JObject? ==> forall k :: 0 <= k < |r| ==> r[k] == doc.members[k].1
    ensures !doc.JNull? && !doc.JArray? && !doc.JObject? ==> r == [doc]
  {
    match doc
    case JNull => []
    case JArray(items) => items
    case JObject(ms) => seq(|ms|, k requires 0 <= k < |ms| => ms[k].1)
    case _ => [doc]
  }
}
