/** The traversal engine of detail/visit.hpp and visit.hpp: a record type's own public fields in
    declaration order, then the full traversal of each reflected base in list order (pre-order,
    depth first), in a discarding form (a fold of a stateful visitor) and an accumulating form
    (one result per call, with each base's results kept together as one nested element). */
module Visiting {
  import opened Types

  /** A field of an instance is addressed by the type that declares it and its name. */
  type Slot = (TypeId, string)

  /** One call of a type visitor: the declaring type, the field's name and `type_tag<M>`. */
  datatype Visit = Visit(owner: TypeId, name: string, ty: FieldType) {
    function Slot(): Slot { (owner, name) }
  }

  /** A reference to a field of an instance, bound by `MemberVisitor` as `instance.*member.ptr`;
      it is const exactly when the instance it was taken from is. */
  datatype FieldRef = FieldRef(slot: Slot, ty: FieldType, isConst: bool)

  function Fields(reg: Registry, t: TypeId): seq<ClassMember>
    requires t in reg.structs
  {
    reg.structs[t].publicFields
  }

  function Bases(reg: Registry, t: TypeId): seq<TypeId>
    requires t in reg.structs
  {
    reg.structs[t].baseClasses
  }

  function Depth(reg: Registry, t: TypeId): nat
    requires t in reg.structs
  {
    reg.structs[t].depth
  }

  /** Every base in `bs` is registered below `bound`. */
  predicate BasesBelow(reg: Registry, bs: seq<TypeId>, bound: nat) {
    forall b :: b in bs ==> b in reg.structs && Depth(reg, b) < bound
  }

  /** The base clause of `WellFormed`, unfolded for one type: every listed base is registered and
      lower in depth. */
  lemma BasesOfWellFormed(reg: Registry, t: TypeId)
    requires WellFormed(reg) && t in reg.structs
    ensures BasesBelow(reg, Bases(reg, t), Depth(reg, t))
  {
  }

  /** `MemberTypeVisitor`: the call made for field `m` of `t`, passing the tag of its declared type. */
  function MemberTypeCall(t: TypeId, m: ClassMember): Visit {
    Visit(t, m.name, m.ty)
  }

  /** `MemberVisitor`: the reference bound for a visit, with the constness of the instance. */
  function MemberRef(v: Visit, isConst: bool): FieldRef {
    FieldRef(v.Slot(), v.ty, isConst)
  }

  /** The element-wise image of a sequence. */
  function MapSeq<X, Y>(h: X -> Y, xs: seq<X>): (r: seq<Y>)
    ensures |r| == |xs| && forall k :: 0 <= k < |xs| ==> r[k] == h(xs[k])
  {
    seq(|xs|, k requires 0 <= k < |xs| => h(xs[k]))
  }

  function OwnVisits(reg: Registry, t: TypeId): (r: seq<Visit>)
    requires t in reg.structs
  {
    MapSeq((m: ClassMember) => MemberTypeCall(t, m), Fields(reg, t))
  }

  /** The sequence of calls a visit of `t` makes, own fields first, then each base's traversal. */
  function Traversal(reg: Registry, t: TypeId): seq<Visit>
    requires WellFormed(reg) && t in reg.structs
    decreases Depth(reg, t), 1
  {
    OwnVisits(reg, t) + BasesTraversal(reg, Bases(reg, t), Depth(reg, t))
  }

  function BasesTraversal(reg: Registry, bs: seq<TypeId>, bound: nat): seq<Visit>
    requires WellFormed(reg) && BasesBelow(reg, bs, bound)
    decreases bound, 0, |bs|
  {
    if bs == [] then [] else Traversal(reg, bs[0]) + BasesTraversal(reg, bs[1..], bound)
  }

  /** Every record type a visited field mentions, own or inherited, is registered below the
      visited type, which lets recursion into nested records terminate. */
  lemma {:induction false} TraversalTypesBelow(reg: Registry, t: TypeId)
    requires WellFormed(reg) && t in reg.structs
    ensures forall v :: v in Traversal(reg, t) ==> RecordsBelow(reg, v.ty, Depth(reg, t))
    decreases Depth(reg, t), 1
  {
    forall v | v in Traversal(reg, t) ensures RecordsBelow(reg, v.ty, Depth(reg, t)) {
      if v in OwnVisits(reg, t) {
        var k :| 0 <= k < |OwnVisits(reg, t)| && OwnVisits(reg, t)[k] == v;
        assert v.ty == Fields(reg, t)[k].ty;
        assert Fields(reg, t)[k] in reg.structs[t].publicFields;
      } else {
        BasesTypesBelow(reg, Bases(reg, t), Depth(reg, t));
      }
    }
  }

  lemma {:induction false} BasesTypesBelow(reg: Registry, bs: seq<TypeId>, bound: nat)
    requires WellFormed(reg) && BasesBelow(reg, bs, bound)
    ensures forall v :: v in BasesTraversal(reg, bs, bound) ==> RecordsBelow(reg, v.ty, bound)
    decreases bound, 0, |bs|
  {
    if bs != [] {
      TraversalTypesBelow(reg, bs[0]);
      BasesTypesBelow(reg, bs[1..], bound);
      forall v | v in Traversal(reg, bs[0]) ensures RecordsBelow(reg, v.ty, bound) {
        RecordsBelowMonotone(reg, v.ty, Depth(reg, bs[0]), bound);
      }
    }
  }

  /** Every visit is a field of its declaring type, and that type is registered. */
  lemma {:induction false} VisitsAreFields(reg: Registry, t: TypeId)
    requires WellFormed(reg) && t in reg.structs
    ensures forall v :: v in Traversal(reg, t) ==>
      v.owner in reg.structs && ClassMember(v.name, v.ty) in Fields(reg, v.owner)
    decreases Depth(reg, t), 1
  {
    forall v | v in Traversal(reg, t)
      ensures v.owner in reg.structs && ClassMember(v.name, v.ty) in Fields(reg, v.owner)
    {
      if v in OwnVisits(reg, t) {
        var k :| 0 <= k < |OwnVisits(reg, t)| && OwnVisits(reg, t)[k] == v;
        assert Fields(reg, t)[k] == ClassMember(v.name, v.ty);
      } else {
        BasesVisitsAreFields(reg, Bases(reg, t), Depth(reg, t));
      }
    }
  }

  lemma {:induction false} BasesVisitsAreFields(reg: Registry, bs: seq<TypeId>, bound: nat)
    requires WellFormed(reg) && BasesBelow(reg, bs, bound)
    ensures forall v :: v in BasesTraversal(reg, bs, bound) ==>
      v.owner in reg.structs && ClassMember(v.name, v.ty) in Fields(reg, v.owner)
    decreases bound, 0, |bs|
  {
    if bs != [] {
      VisitsAreFields(reg, bs[0]);
      BasesVisitsAreFields(reg, bs[1..], bound);
    }
  }

  /** Two visits of one slot are visits of one field. */
  predicate SlotsDetermineVisits(vs: seq<Visit>) {
    forall i, j :: 0 <= i < |vs| && 0 <= j < |vs| && vs[i].Slot() == vs[j].Slot() ==> vs[i] == vs[j]
  }

  /** A slot reached twice (through a base listed on two paths) is the same field both times, with
      one declared type, because a record does not declare two fields of one name. */
  lemma TraversalSlotsDetermineVisits(reg: Registry, t: TypeId)
    requires WellFormed(reg) && DistinctFieldNames(reg) && t in reg.structs
    ensures SlotsDetermineVisits(Traversal(reg, t))
  {
    var vs := Traversal(reg, t);
    VisitsAreFields(reg, t);
    forall i, j | 0 <= i < |vs| && 0 <= j < |vs| && vs[i].Slot() == vs[j].Slot() ensures vs[i] == vs[j] {
      assert vs[i] in vs && vs[j] in vs;
      var fs := Fields(reg, vs[i].owner);
      var a :| 0 <= a < |fs| && fs[a] == ClassMember(vs[i].name, vs[i].ty);
      var b :| 0 <= b < |fs| && fs[b] == ClassMember(vs[j].name, vs[j].ty);
      assert UniqueNames(fs);
      assert a == b;
    }
  }

  /** In index form: every visited field's type is registered below the visited type. */
  lemma TraversalFieldsBelow(reg: Registry, t: TypeId)
    requires WellFormed(reg) && t in reg.structs
    ensures forall k :: 0 <= k < |Traversal(reg, t)| ==> RecordsBelow(reg, Traversal(reg, t)[k].ty, Depth(reg, t))
  {
    TraversalTypesBelow(reg, t);
    forall k | 0 <= k < |Traversal(reg, t)| ensures RecordsBelow(reg, Traversal(reg, t)[k].ty, Depth(reg, t)) {
      assert Traversal(reg, t)[k] in Traversal(reg, t);
    }
  }

  lemma RecordsBelowMonotone(reg: Registry, ty: FieldType, lo: nat, hi: nat)
    requires RecordsBelow(reg, ty, lo) && lo <= hi
    ensures RecordsBelow(reg, ty, hi)
  {
  }

  function Names(vs: seq<Visit>): seq<string> {
    MapSeq((v: Visit) => v.name, vs)
  }

  // ---------------------------------------------------------------------------------------------
  // Discarding form: `forEach(tuple, visitor)` applies the visitor to each element in turn; a
  // visitor that keeps state is a function from the state before a call to the state after it.

  function ForEach<X, S>(xs: seq<X>, f: (S, X) -> S, s: S): S
    decreases |xs|
  {
    if xs == [] then s else ForEach(xs[1..], f, f(s, xs[0]))
  }

  lemma {:induction false} ForEachAppend<X, S>(xs: seq<X>, ys: seq<X>, f: (S, X) -> S, s: S)
    ensures ForEach(xs + ys, f, s) == ForEach(ys, f, ForEach(xs, f, s))
    decreases |xs|
  {
    if xs == [] {
      assert xs + ys == ys;
    } else {
      assert (xs + ys)[1..] == xs[1..] + ys;
      ForEachAppend(xs[1..], ys, f, f(s, xs[0]));
    }
  }

  /** The visitor is applied exactly once per element, in index order: a visitor that logs what
      it sees logs the elements themselves. */
  lemma {:induction false} ForEachVisitsInOrder<X, Y>(xs: seq<X>, g: X -> Y, log: seq<Y>)
    ensures var r := ForEach(xs, (l: seq<Y>, x: X) => l + [g(x)], log);
      |r| == |log| + |xs| && r[..|log|] == log &&
      forall k :: 0 <= k < |xs| ==> r[|log| + k] == g(xs[k])
    decreases |xs|
  {
    if xs != [] {
      ForEachVisitsInOrder(xs[1..], g, log + [g(xs[0])]);
      var r := ForEach(xs, (l: seq<Y>, x: X) => l + [g(x)], log);
      assert r == ForEach(xs[1..], (l: seq<Y>, x: X) => l + [g(x)], log + [g(xs[0])]);
      forall k | 0 <= k < |xs| ensures r[|log| + k] == g(xs[k]) {
        if k > 0 {
          assert r[|log + [g(xs[0])]| + (k - 1)] == g(xs[1..][k - 1]);
        }
      }
    }
  }

  function MapVisits<S>(f: (S, Visit) -> S, t: TypeId): (S, ClassMember) -> S {
    (acc: S, m: ClassMember) => f(acc, MemberTypeCall(t, m))
  }

  /** `visit<T>(visitor)`: `forEach(publicFields, MemberTypeVisitor)` then
      `forEach(baseClasses, BaseClassMemberTypeVisitor)`, the latter recursing with `visit<B>`. */
  function VisitType<S>(reg: Registry, t: TypeId, f: (S, Visit) -> S, s: S): S
    requires WellFormed(reg) && t in reg.structs
    decreases Depth(reg, t), 1
  {
    VisitBases(reg, Bases(reg, t), f, ForEach(Fields(reg, t), MapVisits(f, t), s), Depth(reg, t))
  }

  /** `forEach(baseClasses, BaseClassMemberTypeVisitor{visitor})`. */
  function VisitBases<S>(reg: Registry, bs: seq<TypeId>, f: (S, Visit) -> S, s: S, bound: nat): S
    requires WellFormed(reg) && BasesBelow(reg, bs, bound)
    decreases bound, 0, |bs|
  {
    if bs == [] then s else VisitBases(reg, bs[1..], f, VisitType(reg, bs[0], f, s), bound)
  }


  /** The code-shaped visit is the fold of the visitor over `Traversal`: one call per visited
      field, own fields first, then every base's whole traversal. */
  lemma {:induction false} VisitTypeIsFold<S>(reg: Registry, t: TypeId, f: (S, Visit) -> S, s: S)
    requires WellFormed(reg) && t in reg.structs
    ensures VisitType(reg, t, f, s) == ForEach(Traversal(reg, t), f, s)
    decreases Depth(reg, t), 1
  {
    ForEachMapped(Fields(reg, t), MapVisits(f, t), (m: ClassMember) => MemberTypeCall(t, m), f, s);
    var own := ForEach(OwnVisits(reg, t), f, s);
    assert ForEach(Fields(reg, t), MapVisits(f, t), s) == own;
    assert VisitType(reg, t, f, s) == VisitBases(reg, Bases(reg, t), f, own, Depth(reg, t));
    VisitBasesIsFold(reg, Bases(reg, t), f, own, Depth(reg, t));
    ForEachAppend(OwnVisits(reg, t), BasesTraversal(reg, Bases(reg, t), Depth(reg, t)), f, s);
    assert Traversal(reg, t) == OwnVisits(reg, t) + BasesTraversal(reg, Bases(reg, t), Depth(reg, t));
  }

  lemma {:induction false} VisitBasesIsFold<S>(reg: Registry, bs: seq<TypeId>, f: (S, Visit) -> S, s: S, bound: nat)
    requires WellFormed(reg) && BasesBelow(reg, bs, bound)
    ensures VisitBases(reg, bs, f, s, bound) == ForEach(BasesTraversal(reg, bs, bound), f, s)
    decreases bound, 0, |bs|
  {
    if bs != [] {
      VisitTypeIsFold(reg, bs[0], f, s);
      VisitBasesIsFold(reg, bs[1..], f, VisitType(reg, bs[0], f, s), bound);
      ForEachAppend(Traversal(reg, bs[0]), BasesTraversal(reg, bs[1..], bound), f, s);
    }
  }

  /** `visit(instance, visitor)` compiles: on a const instance `BaseClassMemberVisitor` (and the
      accumulating `BaseClassMemberChainVisitor`) takes `static_cast<B&>(instance)`, which casts the
      constness away and is rejected, so a const instance must have no reflected bases. */
  predicate InstanceVisitCompiles(reg: Registry, t: TypeId, isConst: bool)
    requires t in reg.structs
  {
    isConst ==> Bases(reg, t) == []
  }

  /** `visit(instance, visitor)`: the same traversal, but `MemberVisitor` hands the visitor a
      reference to the field of the instance instead of a tag; the base view
      `static_cast<B&>(instance)` designates the same object, so its fields are the same slots. */
  function VisitInstance<S>(reg: Registry, t: TypeId, isConst: bool, f: (S, string, FieldRef) -> S, s: S): S
    requires WellFormed(reg) && t in reg.structs && InstanceVisitCompiles(reg, t, isConst)
  {
    VisitType(reg, t, (acc: S, v: Visit) => f(acc, v.name, MemberRef(v, isConst)), s)
  }

  /** The calls an instance visit makes: name and bound reference per visited field. */
  function InstanceCalls(reg: Registry, t: TypeId, isConst: bool): (r: seq<(string, FieldRef)>)
    requires WellFormed(reg) && t in reg.structs && InstanceVisitCompiles(reg, t, isConst)
    ensures |r| == |Traversal(reg, t)|
    ensures forall k :: 0 <= k < |r| ==>
      r[k] == (Traversal(reg, t)[k].name, MemberRef(Traversal(reg, t)[k], isConst))
  {
    MapSeq((v: Visit) => (v.name, MemberRef(v, isConst)), Traversal(reg, t))
  }

  /** The instance form visits the same names, in the same order, as the type form, and binds each
      reference with the instance's constness. */
  lemma {:induction false} VisitInstanceIsFold<S>(reg: Registry, t: TypeId, isConst: bool, f: (S, string, FieldRef) -> S, s: S)
    requires WellFormed(reg) && t in reg.structs && InstanceVisitCompiles(reg, t, isConst)
    ensures VisitInstance(reg, t, isConst, f, s)
         == ForEach(InstanceCalls(reg, t, isConst), (acc: S, c: (string, FieldRef)) => f(acc, c.0, c.1), s)
    ensures forall k :: 0 <= k < |InstanceCalls(reg, t, isConst)| ==> InstanceCalls(reg, t, isConst)[k].0 == Traversal(reg, t)[k].name
    ensures forall k :: 0 <= k < |InstanceCalls(reg, t, isConst)| ==> InstanceCalls(reg, t, isConst)[k].1.isConst == isConst
  {
    var g := (acc: S, v: Visit) => f(acc, v.name, MemberRef(v, isConst));
    VisitTypeIsFold(reg, t, g, s);
    ForEachMapped(Traversal(reg, t), g, (v: Visit) => (v.name, MemberRef(v, isConst)), (acc: S, c: (string, FieldRef)) => f(acc, c.0, c.1), s);
    assert VisitInstance(reg, t, isConst, f, s) == VisitType(reg, t, g, s);
  }

  lemma {:induction false} ForEachMapped<X, Y, S>(xs: seq<X>, g: (S, X) -> S, h: X -> Y, f: (S, Y) -> S, s: S)
    requires forall acc: S, x: X :: g(acc, x) == f(acc, h(x))
    ensures ForEach(xs, g, s) == ForEach(MapSeq(h, xs), f, s)
    decreases |xs|
  {
    if xs != [] {
      assert MapSeq(h, xs)[1..] == MapSeq(h, xs[1..]);
      ForEachMapped(xs[1..], g, h, f, g(s, xs[0]));
    }
  }

  // ---------------------------------------------------------------------------------------------
  // Accumulating form: `forEach(tuple, visitor, prevResults)` returns `prevResults` followed by one
  // result per element; a base's whole result tuple is appended as ONE element, so the results of
  // a type are nested, not flattened. Every call goes to the same visitor object, so a visitor that
  // keeps state is a function from the state before a call to the state after it and the call's
  // result; the recursion that chains the previous results exists to make the calls happen in
  // element order, one after another.

  datatype Acc<R> = Leaf(value: R) | Nested(results: seq<Acc<R>>)

  /** The reference for a value-returning visitor run over `xs`: one call per element in index
      order, each in the state the previous calls left; the final state and the results in order. */
  function Scan<X, S, R>(xs: seq<X>, f: (S, X) -> (S, R), s: S): (S, seq<R>)
    decreases |xs|
  {
    if xs == [] then (s, [])
    else
      var rest := Scan(xs[1..], f, f(s, xs[0]).0);
      (rest.0, [f(s, xs[0]).1] + rest.1)
  }

  /** The state part of a value-returning visitor, as a discarding visitor. */
  function States<X, S, R>(f: (S, X) -> (S, R)): (S, X) -> S {
    (acc: S, x: X) => f(acc, x).0
  }

  /** The visitor runs once per element, in index order: the final state is the discarding fold of
      its state part, and result number `k` is what it returns for element `k` in the state the
      first `k` calls left. */
  lemma {:induction false} ScanInOrder<X, S, R>(xs: seq<X>, f: (S, X) -> (S, R), s: S)
    ensures Scan(xs, f, s).0 == ForEach(xs, States(f), s)
    ensures |Scan(xs, f, s).1| == |xs|
    ensures forall k :: 0 <= k < |xs| ==> Scan(xs, f, s).1[k] == f(ForEach(xs[..k], States(f), s), xs[k]).1
    decreases |xs|
  {
    if xs != [] {
      var s1 := f(s, xs[0]).0;
      ScanInOrder(xs[1..], f, s1);
      forall k | 0 <= k < |xs| ensures Scan(xs, f, s).1[k] == f(ForEach(xs[..k], States(f), s), xs[k]).1 {
        if k == 0 {
          assert xs[..0] == [];
        } else {
          assert xs[..k][0] == xs[0] && xs[..k][1..] == xs[1..][..k - 1];
          assert ForEach(xs[..k], States(f), s) == ForEach(xs[1..][..k - 1], States(f), s1);
        }
      }
    }
  }

  /** Running the visitor over a concatenation runs it over the first part, then over the second
      from the state the first part left. */
  lemma {:induction false} ScanAppend<X, S, R>(xs: seq<X>, ys: seq<X>, f: (S, X) -> (S, R), s: S)
    ensures Scan(xs + ys, f, s)
         == (Scan(ys, f, Scan(xs, f, s).0).0, Scan(xs, f, s).1 + Scan(ys, f, Scan(xs, f, s).0).1)
    decreases |xs|
  {
    if xs == [] {
      assert xs + ys == ys;
      assert Scan(xs, f, s) == (s, []);
      assert Scan(xs, f, s).1 + Scan(ys, f, s).1 == Scan(ys, f, s).1;
    } else {
      assert (xs + ys)[0] == xs[0] && (xs + ys)[1..] == xs[1..] + ys;
      var s1 := f(s, xs[0]).0;
      ScanAppend(xs[1..], ys, f, s1);
      AppendRegroup([], f(s, xs[0]).1, Scan(xs[1..], f, s1).1 + Scan(ys, f, Scan(xs[1..], f, s1).0).1);
      assert [f(s, xs[0]).1] + (Scan(xs[1..], f, s1).1 + Scan(ys, f, Scan(xs[1..], f, s1).0).1)
          == ([f(s, xs[0]).1] + Scan(xs[1..], f, s1).1) + Scan(ys, f, Scan(xs[1..], f, s1).0).1;
    }
  }

  /** A wrapped visitor that forwards each element `xs[k]` to `f` as `ys[k]` and wraps the result with
      `w` runs as `f` does over `ys`, with every result wrapped. */
  lemma {:induction false} ScanMapped<X, Y, S, R, Q>(xs: seq<X>, ys: seq<Y>, g: (S, X) -> (S, Q), f: (S, Y) -> (S, R), w: R -> Q, s: S)
    requires |xs| == |ys|
    requires forall acc: S, k :: 0 <= k < |xs| ==> g(acc, xs[k]) == (f(acc, ys[k]).0, w(f(acc, ys[k]).1))
    ensures Scan(xs, g, s) == (Scan(ys, f, s).0, MapSeq(w, Scan(ys, f, s).1))
    decreases |xs|
  {
    if xs != [] {
      assert g(s, xs[0]) == (f(s, ys[0]).0, w(f(s, ys[0]).1));
      ScanMapped(xs[1..], ys[1..], g, f, w, f(s, ys[0]).0);
      var rest := Scan(ys[1..], f, f(s, ys[0]).0).1;
      assert MapSeq(w, [f(s, ys[0]).1] + rest) == [w(f(s, ys[0]).1)] + MapSeq(w, rest);
    }
  }

  /** The recursive accumulating `forEach<I>`: `tuple_cat(prevResults, make_tuple(visitor(get<I>(t))))`
      and on to `I + 1` with the visitor as that call left it, or `prevResults` itself for the
      empty tuple. The result is the previous results followed by the results of the visitor run
      over the elements from `i` on in order, and the visitor ends as that run leaves it. */
  function ForEachAccum<X, S, R>(t: seq<X>, f: (S, X) -> (S, R), s: S, prevResults: seq<R>, i: nat): (r: (S, seq<R>))
    requires |t| == 0 || i < |t|
    ensures |t| == 0 ==> r == (s, prevResults)
    ensures |t| > 0 ==> r == (Scan(t[i..], f, s).0, prevResults + Scan(t[i..], f, s).1)
    decreases |t| - i
  {
    if |t| == 0 then (s, prevResults)
    else
      var call := f(s, t[i]);
      var results := prevResults + [call.1];
      assert t[i..][0] == t[i] && t[i..][1..] == t[i + 1..];
      var rest := Scan(t[i + 1..], f, call.0);
      assert Scan(t[i..], f, s) == (rest.0, [call.1] + rest.1);
      assert results + rest.1 == prevResults + ([call.1] + rest.1);
      assert i + 1 == |t| ==> t[i + 1..] == [] && rest == (call.0, []) && results + rest.1 == results;
      if i + 1 != |t| then ForEachAccum(t, f, call.0, results, i + 1) else (call.0, results)
  }

  /** `chainvisit<I>(t, visitor, b)` of the older detail header: `b` itself for the empty tuple,
      otherwise `b` with the visitor's result for `get<I>(t)` appended, and on to `I + 1`. */
  function ChainVisit<X, S, R>(t: seq<X>, f: (S, X) -> (S, R), s: S, b: seq<R>, i: nat): (S, seq<R>)
    requires |t| == 0 || i < |t|
    decreases |t| - i
  {
    if |t| == 0 then (s, b)
    else
      var call := f(s, t[i]);
      var bnext := b + [call.1];
      if i + 1 == |t| then (call.0, bnext) else ChainVisit(t, f, call.0, bnext, i + 1)
  }

  /** `chainvisit` keeps the accumulator, calls the visitor on each element from `i` on in order and
      appends each result: it computes what the accumulating `forEach` computes, state and results,
      so the older `visitAccum`, which composes it as `visitAccummulate` composes `forEach`, has the
      same results and leaves the visitor in the same state. */
  lemma {:induction false} ChainVisitIsForEachAccum<X, S, R>(t: seq<X>, f: (S, X) -> (S, R), s: S, b: seq<R>, i: nat)
    requires |t| == 0 || i < |t|
    ensures ChainVisit(t, f, s, b, i) == ForEachAccum(t, f, s, b, i)
    ensures |t| > 0 ==> |ChainVisit(t, f, s, b, i).1| == |b| + |t| - i
    decreases |t| - i
  {
    if |t| > 0 && i + 1 != |t| {
      ChainVisitIsForEachAccum(t, f, f(s, t[i]).0, b + [f(s, t[i]).1], i + 1);
    }
    if |t| > 0 {
      ScanInOrder(t[i..], f, s);
    }
  }

  /** The results of an accumulating visit with the per-field visitor `call` (`MemberTypeVisitor` or
      `MemberVisitor` around the user's visitor), and the state the visitor ends in. */
  function VisitAccumulate<S, R>(reg: Registry, t: TypeId, call: (S, Visit) -> (S, R), s: S): (S, seq<Acc<R>>)
    requires WellFormed(reg) && t in reg.structs
    decreases Depth(reg, t), 1
  {
    var own := OwnAccum(reg, t, call, s);
    AccumBases(reg, Bases(reg, t), call, own.0, own.1, 0, Depth(reg, t))
  }

  /** The accumulating `forEach` over the own fields: one `Leaf` per field, in declaration order,
      each holding the visitor's result in the state the previous calls left. */
  function OwnAccum<S, R>(reg: Registry, t: TypeId, call: (S, Visit) -> (S, R), s: S): (r: (S, seq<Acc<R>>))
    requires t in reg.structs
    ensures r.0 == Scan(OwnVisits(reg, t), call, s).0
    ensures |r.1| == |Scan(OwnVisits(reg, t), call, s).1|
    ensures forall k :: 0 <= k < |r.1| ==> r.1[k] == Leaf(Scan(OwnVisits(reg, t), call, s).1[k])
  {
    var g := (acc: S, m: ClassMember) => (call(acc, MemberTypeCall(t, m)).0, Leaf(call(acc, MemberTypeCall(t, m)).1));
    assert Fields(reg, t)[0..] == Fields(reg, t);
    ScanMapped(Fields(reg, t), OwnVisits(reg, t), g, call, (x: R) => Leaf(x), s);
    ForEachAccum(Fields(reg, t), g, s, [], 0)
  }

  /** `forEach(baseClasses, BaseClassMemberTypeChainVisitor, results)`: the accumulating `forEach`
      whose visitor recurses into the accumulating visit of each base with the shared visitor. */
  function AccumBases<S, R>(reg: Registry, bs: seq<TypeId>, call: (S, Visit) -> (S, R), s: S, prevResults: seq<Acc<R>>, i: nat, bound: nat): (S, seq<Acc<R>>)
    requires WellFormed(reg) && BasesBelow(reg, bs, bound) && (|bs| == 0 || i < |bs|)
    decreases bound, 0, |bs| - i
  {
    if |bs| == 0 then (s, prevResults)
    else
      var inner := VisitAccumulate(reg, bs[i], call, s);
      var results := prevResults + [Nested(inner.1)];
      if i + 1 != |bs| then AccumBases(reg, bs, call, inner.0, results, i + 1, bound) else (inner.0, results)
  }

  /** The reference for the accumulating `forEach` over the bases: one `Nested` element per base,
      in list order, holding that base's whole accumulated results, each base visited in the state
      the previous bases left. */
  function NestedResults<S, R>(reg: Registry, bs: seq<TypeId>, call: (S, Visit) -> (S, R), s: S, bound: nat): (r: (S, seq<Acc<R>>))
    requires WellFormed(reg) && BasesBelow(reg, bs, bound)
    ensures |r.1| == |bs|
    ensures forall j :: 0 <= j < |bs| ==> r.1[j].Nested?
    decreases |bs|
  {
    if bs == [] then (s, [])
    else
      var here := VisitAccumulate(reg, bs[0], call, s);
      var rest := NestedResults(reg, bs[1..], call, here.0, bound);
      (rest.0, [Nested(here.1)] + rest.1)
  }

  /** The accumulating `forEach` over the bases from `i` on keeps the previous results and appends
      the nested results of the remaining bases, and ends in the state they leave. */
  lemma {:induction false} AccumBasesIsNested<S, R>(reg: Registry, bs: seq<TypeId>, call: (S, Visit) -> (S, R), s: S, prev: seq<Acc<R>>, i: nat, bound: nat)
    requires WellFormed(reg) && BasesBelow(reg, bs, bound) && i < |bs|
    ensures BasesBelow(reg, bs[i..], bound)
    ensures AccumBases(reg, bs, call, s, prev, i, bound)
         == (NestedResults(reg, bs[i..], call, s, bound).0, prev + NestedResults(reg, bs[i..], call, s, bound).1)
    decreases |bs| - i
  {
    NestedResultsCons(reg, bs, call, s, i, bound);
    var here := VisitAccumulate(reg, bs[i], call, s);
    var n := Nested(here.1);
    var rest := NestedResults(reg, bs[i + 1..], call, here.0, bound);
    AppendRegroup(prev, n, rest.1);
    if i + 1 != |bs| {
      AccumBasesIsNested(reg, bs, call, here.0, prev + [n], i + 1, bound);
      assert AccumBases(reg, bs, call, s, prev, i, bound) == AccumBases(reg, bs, call, here.0, prev + [n], i + 1, bound);
    } else {
      assert rest == (here.0, []);
      assert [n] + rest.1 == [n];
      assert AccumBases(reg, bs, call, s, prev, i, bound) == (here.0, prev + [n]);
    }
  }

  lemma AppendRegroup<X>(prev: seq<X>, n: X, rest: seq<X>)
    ensures (prev + [n]) + rest == prev + ([n] + rest)
  {
  }

  lemma NestedResultsCons<S, R>(reg: Registry, bs: seq<TypeId>, call: (S, Visit) -> (S, R), s: S, i: nat, bound: nat)
    requires WellFormed(reg) && BasesBelow(reg, bs, bound) && i < |bs|
    ensures BasesBelow(reg, bs[i..], bound) && BasesBelow(reg, bs[i + 1..], bound) && bs[i] in reg.structs
    ensures var here := VisitAccumulate(reg, bs[i], call, s);
      NestedResults(reg, bs[i..], call, s, bound)
        == (NestedResults(reg, bs[i + 1..], call, here.0, bound).0,
            [Nested(here.1)] + NestedResults(reg, bs[i + 1..], call, here.0, bound).1)
  {
    assert bs[i] in bs;
    assert bs[i..][0] == bs[i] && bs[i..][1..] == bs[i + 1..];
  }

  /** An accumulating visit of `t` is one `Leaf` per own field, in declaration order, followed by
      one `Nested` element per base, in list order, holding that base's own accumulated results;
      the bases are visited in the state the own fields left. */
  lemma VisitAccumulateSplit<S, R>(reg: Registry, t: TypeId, call: (S, Visit) -> (S, R), s: S)
    requires WellFormed(reg) && t in reg.structs
    ensures BasesBelow(reg, Bases(reg, t), Depth(reg, t))
    ensures var own := OwnAccum(reg, t, call, s);
      var nested := NestedResults(reg, Bases(reg, t), call, own.0, Depth(reg, t));
      VisitAccumulate(reg, t, call, s) == (nested.0, own.1 + nested.1)
  {
    BasesOfWellFormed(reg, t);
    var bs := Bases(reg, t);
    var own := OwnAccum(reg, t, call, s);
    if |bs| > 0 {
      AccumBasesIsNested(reg, bs, call, own.0, own.1, 0, Depth(reg, t));
      assert bs[0..] == bs;
    } else {
      assert own.1 + [] == own.1;
    }
  }

  /** `visitAccummulate<T>(visitor)`: the visitor receives each field's name and type tag. */
  function VisitAccumulateType<S, R>(reg: Registry, t: TypeId, f: (S, string, FieldType) -> (S, R), s: S): (S, seq<Acc<R>>)
    requires WellFormed(reg) && t in reg.structs
  {
    VisitAccumulate(reg, t, (acc: S, v: Visit) => f(acc, v.name, v.ty), s)
  }

  /** `visitAccummulate(instance, visitor)`: the visitor receives each field's name and a reference
      to it with the instance's constness. */
  function VisitAccumulateInstance<S, R>(reg: Registry, t: TypeId, isConst: bool, f: (S, string, FieldRef) -> (S, R), s: S): (S, seq<Acc<R>>)
    requires WellFormed(reg) && t in reg.structs && InstanceVisitCompiles(reg, t, isConst)
  {
    VisitAccumulate(reg, t, (acc: S, v: Visit) => f(acc, v.name, MemberRef(v, isConst)), s)
  }

  /** All results in call order, with the nesting removed. */
  function Flatten<R>(rs: seq<Acc<R>>): seq<R>
    decreases rs
  {
    if rs == [] then []
    else
      (match rs[0]
       case Leaf(r) => [r]
       case Nested(inner) => Flatten(inner)) + Flatten(rs[1..])
  }

  lemma {:induction false} FlattenAppend<R>(a: seq<Acc<R>>, b: seq<Acc<R>>)
    ensures Flatten(a + b) == Flatten(a) + Flatten(b)
    decreases a
  {
    if a == [] {
      assert a + b == b;
    } else {
      assert (a + b)[0] == a[0];
      assert (a + b)[1..] == a[1..] + b;
      FlattenAppend(a[1..], b);
    }
  }

  lemma {:induction false} FlattenLeafSeq<R>(rs: seq<Acc<R>>, xs: seq<R>)
    requires |rs| == |xs| && forall k :: 0 <= k < |rs| ==> rs[k] == Leaf(xs[k])
    ensures Flatten(rs) == xs
    decreases |rs|
  {
    if rs != [] {
      FlattenLeafSeq(rs[1..], xs[1..]);
      assert xs == [xs[0]] + xs[1..];
    }
  }

  /** The accumulating visit runs the visitor over the traversal's calls in order: with the nesting
      removed, its results are those of that run, and the visitor ends in the state that run leaves.
      Accumulation reorders, repeats and drops nothing. */
  lemma {:induction false} FlattenVisitAccumulate<S, R>(reg: Registry, t: TypeId, call: (S, Visit) -> (S, R), s: S)
    requires WellFormed(reg) && t in reg.structs
    ensures VisitAccumulate(reg, t, call, s).0 == Scan(Traversal(reg, t), call, s).0
    ensures Flatten(VisitAccumulate(reg, t, call, s).1) == Scan(Traversal(reg, t), call, s).1
    decreases Depth(reg, t), 1
  {
    var own := OwnAccum(reg, t, call, s);
    var bs := Bases(reg, t);
    VisitAccumulateSplit(reg, t, call, s);
    var nested := NestedResults(reg, bs, call, own.0, Depth(reg, t));
    FlattenLeafSeq(own.1, Scan(OwnVisits(reg, t), call, s).1);
    FlattenAppend(own.1, nested.1);
    FlattenNestedResults(reg, bs, call, own.0, Depth(reg, t));
    ScanAppend(OwnVisits(reg, t), BasesTraversal(reg, bs, Depth(reg, t)), call, s);
  }

  /** The bases' nested results, flattened, are the results of the visitor run over the bases'
      traversals in order, and the visitor ends as that run leaves it. */
  lemma {:induction false} FlattenNestedResults<S, R>(reg: Registry, bs: seq<TypeId>, call: (S, Visit) -> (S, R), s: S, bound: nat)
    requires WellFormed(reg) && BasesBelow(reg, bs, bound)
    ensures NestedResults(reg, bs, call, s, bound).0 == Scan(BasesTraversal(reg, bs, bound), call, s).0
    ensures Flatten(NestedResults(reg, bs, call, s, bound).1) == Scan(BasesTraversal(reg, bs, bound), call, s).1
    decreases bound, 0, |bs|
  {
    if bs != [] {
      assert bs[0] in bs;
      var here := VisitAccumulate(reg, bs[0], call, s);
      var rest := NestedResults(reg, bs[1..], call, here.0, bound);
      FlattenAppend([Nested(here.1)], rest.1);
      assert Flatten([Nested(here.1)]) == Flatten(here.1) + Flatten([]);
      FlattenVisitAccumulate(reg, bs[0], call, s);
      FlattenNestedResults(reg, bs[1..], call, here.0, bound);
      ScanAppend(Traversal(reg, bs[0]), BasesTraversal(reg, bs[1..], bound), call, s);
    }
  }

  lemma MapSeqAppend<X, Y>(h: X -> Y, a: seq<X>, b: seq<X>)
    ensures MapSeq(h, a + b) == MapSeq(h, a) + MapSeq(h, b)
  {
  }

  lemma {:induction false} ForEachCongruent<X, S>(xs: seq<X>, g: (S, X) -> S, h: (S, X) -> S, s: S)
    requires forall acc: S, x: X :: g(acc, x) == h(acc, x)
    ensures ForEach(xs, g, s) == ForEach(xs, h, s)
    decreases |xs|
  {
    if xs != [] {
      ForEachCongruent(xs[1..], g, h, g(s, xs[0]));
    }
  }

  /** `visitAccummulate<T>(visitor)` calls the visitor once per visited field, in the order of
      `visit<T>`: the visitor ends in the state `visit<T>` leaves it in, and, flattened, result
      number `k` is the visitor's result for the `k`-th name and type tag in the state the first `k`
      calls left. */
  lemma VisitAccumulateTypeFlattens<S, R>(reg: Registry, t: TypeId, f: (S, string, FieldType) -> (S, R), s: S)
    requires WellFormed(reg) && t in reg.structs
    ensures VisitAccumulateType(reg, t, f, s).0 == VisitType(reg, t, (acc: S, v: Visit) => f(acc, v.name, v.ty).0, s)
    ensures |Flatten(VisitAccumulateType(reg, t, f, s).1)| == |Traversal(reg, t)|
    ensures forall k :: 0 <= k < |Traversal(reg, t)| ==>
      Flatten(VisitAccumulateType(reg, t, f, s).1)[k]
        == f(ForEach(Traversal(reg, t)[..k], (acc: S, v: Visit) => f(acc, v.name, v.ty).0, s),
             Traversal(reg, t)[k].name, Traversal(reg, t)[k].ty).1
  {
    var call := (acc: S, v: Visit) => f(acc, v.name, v.ty);
    var g := (acc: S, v: Visit) => f(acc, v.name, v.ty).0;
    var vs := Traversal(reg, t);
    FlattenVisitAccumulate(reg, t, call, s);
    ScanInOrder(vs, call, s);
    VisitTypeIsFold(reg, t, g, s);
    ForEachCongruent(vs, States(call), g, s);
    forall k | 0 <= k < |vs|
      ensures Flatten(VisitAccumulateType(reg, t, f, s).1)[k] == f(ForEach(vs[..k], g, s), vs[k].name, vs[k].ty).1
    {
      ForEachCongruent(vs[..k], States(call), g, s);
    }
  }

  /** `visitAccummulate(instance, visitor)` makes the calls of `visit(instance, visitor)`, in the
      same order and with the same references: the visitor ends in the state that visit leaves it
      in, and, flattened, result number `k` is the visitor's result for the `k`-th call in the state
      the first `k` calls left. */
  lemma VisitAccumulateInstanceFlattens<S, R>(reg: Registry, t: TypeId, isConst: bool, f: (S, string, FieldRef) -> (S, R), s: S)
    requires WellFormed(reg) && t in reg.structs && InstanceVisitCompiles(reg, t, isConst)
    ensures VisitAccumulateInstance(reg, t, isConst, f, s).0
         == VisitInstance(reg, t, isConst, (acc: S, n: string, r: FieldRef) => f(acc, n, r).0, s)
    ensures |Flatten(VisitAccumulateInstance(reg, t, isConst, f, s).1)| == |InstanceCalls(reg, t, isConst)|
    ensures forall k :: 0 <= k < |InstanceCalls(reg, t, isConst)| ==>
      Flatten(VisitAccumulateInstance(reg, t, isConst, f, s).1)[k]
        == f(ForEach(InstanceCalls(reg, t, isConst)[..k], (acc: S, c: (string, FieldRef)) => f(acc, c.0, c.1).0, s),
             InstanceCalls(reg, t, isConst)[k].0, InstanceCalls(reg, t, isConst)[k].1).1
  {
    var call := (acc: S, v: Visit) => f(acc, v.name, MemberRef(v, isConst));
    var g := (acc: S, c: (string, FieldRef)) => f(acc, c.0, c.1).0;
    var h := (v: Visit) => (v.name, MemberRef(v, isConst));
    var vs := Traversal(reg, t);
    var cs := InstanceCalls(reg, t, isConst);
    FlattenVisitAccumulate(reg, t, call, s);
    ScanInOrder(vs, call, s);
    var F := (acc: S, n: string, r: FieldRef) => f(acc, n, r).0;
    VisitTypeIsFold(reg, t, (acc: S, v: Visit) => F(acc, v.name, MemberRef(v, isConst)), s);
    ForEachCongruent(vs, States(call), (acc: S, v: Visit) => F(acc, v.name, MemberRef(v, isConst)), s);
    forall k | 0 <= k < |cs|
      ensures Flatten(VisitAccumulateInstance(reg, t, isConst, f, s).1)[k] == f(ForEach(cs[..k], g, s), cs[k].0, cs[k].1).1
    {
      ForEachMapped(vs[..k], States(call), h, g, s);
      assert MapSeq(h, vs[..k]) == cs[..k];
    }
  }
}
