/**
 * The type graph utilities of Type.cpp over a finite store of type nodes.
 *
 * A `TypeId` is a key of the store. Only the variants that the modelled functions inspect
 * are kept (tables, functions, metatables, free/generic/blocked types, type functions and
 * lazy types are outside this model). `WellFounded` states that every edge these functions
 * traverse (bound-to, union options, intersection parts, negated type, extern parent) goes
 * to a smaller id. `FollowType`, `FollowAny` and the union iterator `WalkOptions` work on
 * arbitrary stores, cycles included, and agree with the well-founded versions.
 */
module Types {
  import opened Options
  import Chains

  type TypeId = nat

  datatype PrimitiveKind = NilType | Boolean | Number | String | Thread | Function | Table | Buffer

  datatype SingletonValue = BooleanSingleton(b: bool) | StringSingleton(str: string)

  /** A class property: a read type, a write type, or both. */
  datatype Property = Property(readTy: Option<TypeId>, writeTy: Option<TypeId>) {

    predicate IsShared() {
      readTy.Some? && writeTy.Some? && readTy == writeTy
    }

    predicate IsReadOnly() {
      readTy.Some? && writeTy.None?
    }

    predicate IsWriteOnly() {
      readTy.None? && writeTy.Some?
    }

    predicate IsReadWrite() {
      readTy.Some? && writeTy.Some?
    }
  }

  datatype TypeNode =
    | BoundType(boundTo: TypeId)
    | UnknownType
    | AnyType
    | NeverType
    | ErrorType
    | PrimitiveType(kind: PrimitiveKind)
    | SingletonType(variant: SingletonValue)
    | ExternType(name: string, parent: Option<TypeId>, props: map<string, Property>, tags: seq<string>)
    | UnionType(options: seq<TypeId>)
    | IntersectionType(parts: seq<TypeId>)
    | NegationType(ty: TypeId)

  type Store = map<TypeId, TypeNode>

  /** `c` is a present, strictly smaller id than `id`. */
  predicate Below(s: Store, id: TypeId, c: TypeId) {
    c < id && c in s
  }

  predicate AllBelow(s: Store, id: TypeId, cs: seq<TypeId>) {
    forall i :: 0 <= i < |cs| ==> Below(s, id, cs[i])
  }

  /** Every traversed edge out of node `id` goes down to a present node. */
  predicate EdgesBelow(s: Store, id: TypeId, n: TypeNode) {
    match n
    case BoundType(b) => Below(s, id, b)
    case ExternType(_, parent, _, _) => parent.Some? ==> Below(s, id, parent.value)
    case UnionType(options) => AllBelow(s, id, options)
    case IntersectionType(parts) => AllBelow(s, id, parts)
    case NegationType(t) => Below(s, id, t)
    case _ => true
  }

  ghost predicate WellFounded(s: Store) {
    forall id :: id in s ==> EdgesBelow(s, id, s[id])
  }

  // ---------------------------------------------------------------------------------
  // follow

  /** The bound-to edges as a successor map (Type.cpp:90-91, the only edge modelled). */
  function BoundSucc(s: Store): Chains.Succ {
    map id | id in s && s[id].BoundType? :: s[id].boundTo
  }

  /** `follow` on a well-founded store, by recursion down the bound chain. */
  function Follow(s: Store, t: TypeId): (r: TypeId)
    requires WellFounded(s) && t in s
    ensures r in s && r <= t && !s[r].BoundType?
    decreases t
  {
    match s[t]
    case BoundType(b) => Follow(s, b)
    case _ => t
  }

  /** Following a followed type stays put. */
  lemma FollowFixed(s: Store, t: TypeId)
    requires WellFounded(s) && t in s
    ensures Follow(s, Follow(s, t)) == Follow(s, t)
  {
  }

  lemma {:induction false} FollowWalks(s: Store, t: TypeId)
    requires WellFounded(s) && t in s
    ensures exists k :: Chains.Walk(BoundSucc(s), t, k) == Some(Follow(s, t))
    decreases t
  {
    var succ := BoundSucc(s);
    if s[t].BoundType? {
      var b := s[t].boundTo;
      FollowWalks(s, b);
      var k: nat :| Chains.Walk(succ, b, k) == Some(Follow(s, b));
      assert Chains.Walk(succ, t, k + 1) == Chains.Walk(succ, b, k);
    } else {
      assert Chains.Walk(succ, t, 0) == Some(t);
    }
  }

  /** On a well-founded store the cycle-checking loop and the plain recursion agree. */
  lemma FollowAgrees(s: Store, t: TypeId)
    requires WellFounded(s) && t in s
    ensures Chains.FollowSpec(BoundSucc(s), t) == Some(Follow(s, t))
  {
    FollowWalks(s, t);
    var k: nat :| Chains.Walk(BoundSucc(s), t, k) == Some(Follow(s, t));
    Chains.EndIsSpec(BoundSucc(s), t, k);
  }

  /**
   * `follow(TypeId)` (Type.cpp:84-137) restricted to bound edges, on any store: None is the
   * "detected a Type cycle" error. The result has no bound successor, is the input itself
   * when the input has none, is a fixed point, and is the plain recursion's result on a
   * well-founded store.
   */
  method FollowType(s: Store, t: TypeId) returns (r: Option<TypeId>)
    ensures r.Some? ==> r.value !in BoundSucc(s)
    ensures r.Some? ==> exists k :: Chains.Walk(BoundSucc(s), t, k) == r
    ensures t !in BoundSucc(s) ==> r == Some(t)
    ensures r.None? <==> forall k :: Chains.Walk(BoundSucc(s), t, k).Some?
    ensures r.Some? ==> Chains.FollowSpec(BoundSucc(s), r.value) == r
    ensures WellFounded(s) && t in s ==> r == Some(Follow(s, t))
  {
    r := Chains.Follow(BoundSucc(s), t);
    Chains.FollowSpecEnds(BoundSucc(s), t);
    if r.Some? {
      Chains.FollowIdempotent(BoundSucc(s), t);
    }
    if WellFounded(s) && t in s {
      FollowAgrees(s, t);
    }
  }

  // ---------------------------------------------------------------------------------
  // Predicates over unions

  /**
   * Every leaf of `t` satisfies `p`, where the leaves of a union are found by descending
   * into nested unions (the union iterator); a non-union is its own leaf.
   */
  predicate AllLeaves(s: Store, t: TypeId, p: TypeNode -> bool)
    requires WellFounded(s) && t in s
    decreases t
  {
    var f := Follow(s, t);
    match s[f]
    case UnionType(options) =>
      forall i :: 0 <= i < |options| ==> AllLeaves(s, options[i], p)
    case _ => p(s[f])
  }

  /** Some leaf of `t` satisfies `p`. */
  predicate AnyLeaf(s: Store, t: TypeId, p: TypeNode -> bool)
    requires WellFounded(s) && t in s
    decreases t
  {
    var f := Follow(s, t);
    match s[f]
    case UnionType(options) =>
      exists i :: 0 <= i < |options| && AnyLeaf(s, options[i], p)
    case _ => p(s[f])
  }

  // ---------------------------------------------------------------------------------
  // The union iterator

  /** Ids of the store that do not follow to a union: what the union iterator yields. */
  predicate LeafIds(s: Store, xs: seq<TypeId>)
    requires WellFounded(s)
  {
    forall k :: 0 <= k < |xs| ==> xs[k] in s && !s[Follow(s, xs[k])].UnionType?
  }

  /**
   * `begin(const UnionType*)` (Type.cpp:1268-1276) walks `options[i..]` of the union
   * `owner` depth first. An option that follows to a union is entered, unless that union
   * was entered before; any other option is yielded as it is, unfollowed. `acc` and
   * `entered` are what the walk has yielded and entered so far.
   */
  function IterateOptions(s: Store, owner: TypeId, options: seq<TypeId>, i: nat, entered: set<TypeId>, acc: seq<TypeId>): (res: (seq<TypeId>, set<TypeId>))
    requires WellFounded(s) && owner in s && AllBelow(s, owner, options) && i <= |options|
    requires LeafIds(s, acc)
    ensures LeafIds(s, res.0) && acc <= res.0 && entered <= res.1
    decreases owner, |options| - i
  {
    if i == |options| then (acc, entered)
    else
      var f := Follow(s, options[i]);
      if !s[f].UnionType? then IterateOptions(s, owner, options, i + 1, entered, acc + [options[i]])
      else if f in entered then IterateOptions(s, owner, options, i + 1, entered, acc)
      else
        var inner := IterateOptions(s, f, s[f].options, 0, entered + {f}, acc);
        IterateOptions(s, owner, options, i + 1, inner.1, inner.0)
  }

  /**
   * The types `for (TypeId part : union)` visits for the union `u`, in order: every leaf
   * below it, a nested union that occurs twice being walked once.
   */
  function UnionParts(s: Store, u: TypeId): (parts: seq<TypeId>)
    requires WellFounded(s) && u in s && s[u].UnionType?
    ensures LeafIds(s, parts)
  {
    IterateOptions(s, u, s[u].options, 0, {u}, []).0
  }

  /** The leaves below `options[i..]`, as a set: the reference the iterator is judged by. */
  ghost function OptionLeaves(s: Store, owner: TypeId, options: seq<TypeId>, i: nat): (leaves: set<TypeId>)
    requires WellFounded(s) && owner in s && AllBelow(s, owner, options) && i <= |options|
    ensures forall x :: x in leaves ==> x in s && !s[Follow(s, x)].UnionType?
    decreases owner, |options| - i
  {
    if i == |options| then {}
    else
      var f := Follow(s, options[i]);
      (if s[f].UnionType? then OptionLeaves(s, f, s[f].options, 0) else {options[i]})
      + OptionLeaves(s, owner, options, i + 1)
  }

  ghost function Elems(xs: seq<TypeId>): set<TypeId> {
    set x | x in xs
  }

  /** Every entered union below `bound` has all its leaves yielded already. */
  ghost predicate Covered(s: Store, entered: set<TypeId>, acc: seq<TypeId>, bound: TypeId)
    requires WellFounded(s)
  {
    forall u :: u in entered && u < bound && u in s && s[u].UnionType? ==>
      OptionLeaves(s, u, s[u].options, 0) <= Elems(acc)
  }

  /** The walk yields nothing but leaves below the options it is given. */
  lemma {:induction false} IterateSound(s: Store, owner: TypeId, options: seq<TypeId>, i: nat, entered: set<TypeId>, acc: seq<TypeId>)
    requires WellFounded(s) && owner in s && AllBelow(s, owner, options) && i <= |options|
    requires LeafIds(s, acc)
    ensures Elems(IterateOptions(s, owner, options, i, entered, acc).0) <= Elems(acc) + OptionLeaves(s, owner, options, i)
    decreases owner, |options| - i
  {
    if i < |options| {
      var f := Follow(s, options[i]);
      if !s[f].UnionType? {
        IterateSound(s, owner, options, i + 1, entered, acc + [options[i]]);
      } else if f in entered {
        IterateSound(s, owner, options, i + 1, entered, acc);
      } else {
        var inner := IterateOptions(s, f, s[f].options, 0, entered + {f}, acc);
        IterateSound(s, f, s[f].options, 0, entered + {f}, acc);
        IterateSound(s, owner, options, i + 1, inner.1, inner.0);
      }
    }
  }

  /**
   * Skipping an entered union loses nothing: every union entered before the walk and
   * below its owner is already covered, so afterwards every leaf below the options is
   * yielded, and the unions entered on the way are covered too.
   */
  lemma {:induction false} IterateComplete(s: Store, owner: TypeId, options: seq<TypeId>, i: nat, entered: set<TypeId>, acc: seq<TypeId>)
    requires WellFounded(s) && owner in s && AllBelow(s, owner, options) && i <= |options|
    requires LeafIds(s, acc) && Covered(s, entered, acc, owner)
    ensures var res := IterateOptions(s, owner, options, i, entered, acc);
      && OptionLeaves(s, owner, options, i) <= Elems(res.0)
      && Covered(s, res.1, res.0, owner)
      && forall u :: u in res.1 && u !in entered ==> u < owner
    decreases owner, |options| - i
  {
    if i < |options| {
      var f := Follow(s, options[i]);
      if !s[f].UnionType? {
        var acc1 := acc + [options[i]];
        assert Covered(s, entered, acc1, owner) by {
          assert Elems(acc) <= Elems(acc1);
        }
        IterateComplete(s, owner, options, i + 1, entered, acc1);
        var res := IterateOptions(s, owner, options, i + 1, entered, acc1);
        assert options[i] in Elems(res.0) by {
          assert acc1 <= res.0;
          assert res.0[|acc|] == options[i];
        }
      } else if f in entered {
        IterateComplete(s, owner, options, i + 1, entered, acc);
        var res := IterateOptions(s, owner, options, i + 1, entered, acc);
        assert Elems(acc) <= Elems(res.0);
      } else {
        var inner := IterateOptions(s, f, s[f].options, 0, entered + {f}, acc);
        IterateComplete(s, f, s[f].options, 0, entered + {f}, acc);
        assert Elems(acc) <= Elems(inner.0);
        assert Covered(s, inner.1, inner.0, owner);
        IterateComplete(s, owner, options, i + 1, inner.1, inner.0);
        var res := IterateOptions(s, owner, options, i + 1, inner.1, inner.0);
        assert Elems(inner.0) <= Elems(res.0);
      }
    }
  }

  /** The union iterator visits exactly the leaves below the union, as a set. */
  lemma UnionPartsAreLeaves(s: Store, u: TypeId)
    requires WellFounded(s) && u in s && s[u].UnionType?
    ensures Elems(UnionParts(s, u)) == OptionLeaves(s, u, s[u].options, 0)
  {
    IterateSound(s, u, s[u].options, 0, {u}, []);
    IterateComplete(s, u, s[u].options, 0, {u}, []);
  }

  /** `AllLeaves` over `options[i..]` is a statement about the leaf set. */
  lemma {:induction false} OptionLeavesAll(s: Store, owner: TypeId, options: seq<TypeId>, i: nat, p: TypeNode -> bool)
    requires WellFounded(s) && owner in s && AllBelow(s, owner, options) && i <= |options|
    ensures (forall j :: i <= j < |options| ==> AllLeaves(s, options[j], p)) <==>
      (forall x :: x in OptionLeaves(s, owner, options, i) ==> p(s[Follow(s, x)]))
    decreases owner, |options| - i, 1
  {
    if i < |options| {
      var f := Follow(s, options[i]);
      var head := if s[f].UnionType? then OptionLeaves(s, f, s[f].options, 0) else {options[i]};
      var rest := OptionLeaves(s, owner, options, i + 1);
      assert OptionLeaves(s, owner, options, i) == head + rest;
      OptionLeavesAll(s, owner, options, i + 1, p);
      OptionLeafAll(s, owner, options, i, p);
      SatisfiedUnion(s, head, rest, p);
      assert (forall j :: i <= j < |options| ==> AllLeaves(s, options[j], p)) <==>
        AllLeaves(s, options[i], p) && forall j :: i + 1 <= j < |options| ==> AllLeaves(s, options[j], p);
    }
  }

  /** `AllLeaves` of one option is a statement about the leaves below it. */
  lemma {:induction false} OptionLeafAll(s: Store, owner: TypeId, options: seq<TypeId>, i: nat, p: TypeNode -> bool)
    requires WellFounded(s) && owner in s && AllBelow(s, owner, options) && i < |options|
    ensures var f := Follow(s, options[i]);
      var head := if s[f].UnionType? then OptionLeaves(s, f, s[f].options, 0) else {options[i]};
      AllLeaves(s, options[i], p) <==> forall x :: x in head ==> p(s[Follow(s, x)])
    decreases owner, |options| - i, 0
  {
    var f := Follow(s, options[i]);
    assert Below(s, owner, options[i]);
    if s[f].UnionType? {
      OptionLeavesAll(s, f, s[f].options, 0, p);
      assert AllLeaves(s, options[i], p) <==> forall k :: 0 <= k < |s[f].options| ==> AllLeaves(s, s[f].options[k], p);
    } else {
      assert AllLeaves(s, options[i], p) == p(s[f]);
    }
  }

  lemma SatisfiedUnion(s: Store, a: set<TypeId>, b: set<TypeId>, p: TypeNode -> bool)
    requires WellFounded(s) && (forall x :: x in a ==> x in s) && (forall x :: x in b ==> x in s)
    ensures (forall x :: x in a + b ==> p(s[Follow(s, x)])) <==>
      (forall x :: x in a ==> p(s[Follow(s, x)])) && (forall x :: x in b ==> p(s[Follow(s, x)]))
  {
  }

  /**
   * A union's leaves, as the iterator yields them, all satisfy `p` exactly when
   * `AllLeaves` holds: the recursive predicates quantify over what the loop visits.
   */
  lemma UnionPartsAll(s: Store, u: TypeId, p: TypeNode -> bool)
    requires WellFounded(s) && u in s && s[u].UnionType?
    ensures var parts := UnionParts(s, u);
      AllLeaves(s, u, p) <==> forall k :: 0 <= k < |parts| ==> p(s[Follow(s, parts[k])])
  {
    UnionPartsAreLeaves(s, u);
    OptionLeavesAll(s, u, s[u].options, 0, p);
    assert Follow(s, u) == u;
  }

  // ---------------------------------------------------------------------------------
  // The union iterator on any store, cycles included

  /** The edges the union iterator takes, bound-to and union options, stay in the store. */
  predicate NodeClosed(s: Store, n: TypeNode) {
    match n
    case BoundType(b) => b in s
    case UnionType(options) => InStore(s, options)
    case _ => true
  }

  /** Every bound-to edge and union option names a type of the store; cycles are allowed. */
  predicate Closed(s: Store) {
    forall id :: id in s ==> NodeClosed(s, s[id])
  }

  lemma WellFoundedClosed(s: Store)
    requires WellFounded(s)
    ensures Closed(s)
  {
    forall id | id in s
      ensures NodeClosed(s, s[id])
    {
      assert EdgesBelow(s, id, s[id]);
    }
  }

  /**
   * `follow` on any store as a function: the end of the bound chain, or None for the
   * "detected a Type cycle" error that the loop of `FollowType` reports.
   */
  function FollowAny(s: Store, t: TypeId): (r: Option<TypeId>)
    requires Closed(s) && t in s
    ensures r.Some? ==> r.value in s && !s[r.value].BoundType?
    ensures !s[t].BoundType? ==> r == Some(t)
  {
    FuelInStore(s, t, |BoundSucc(s)|);
    Chains.FollowSpec(BoundSucc(s), t)
  }

  lemma {:induction false} FuelInStore(s: Store, t: TypeId, fuel: nat)
    requires Closed(s) && t in s
    ensures var r := Chains.FollowFuel(BoundSucc(s), t, fuel);
      r.Some? ==> r.value in s && !s[r.value].BoundType?
    decreases fuel
  {
    if s[t].BoundType? && fuel > 0 {
      assert NodeClosed(s, s[t]);
      FuelInStore(s, s[t].boundTo, fuel - 1);
    }
  }

  /** On a well-founded store the function agrees with the recursion `Follow`. */
  lemma FollowAnyWellFounded(s: Store, t: TypeId)
    requires WellFounded(s) && t in s
    ensures Closed(s) && FollowAny(s, t) == Some(Follow(s, t))
  {
    WellFoundedClosed(s);
    FollowAgrees(s, t);
  }

  /** The ids of `xs` that the walk yields: each follows, without a cycle, to a non-union. */
  predicate YieldsLeaves(s: Store, xs: seq<TypeId>)
    requires Closed(s)
  {
    forall k :: 0 <= k < |xs| ==> xs[k] in s && FollowAny(s, xs[k]).Some? && !s[FollowAny(s, xs[k]).value].UnionType?
  }

  /**
   * The union iterator's walk over `options[i..]` on any store. A nested union already
   * entered is skipped, which ends the walk of a union that contains itself; None is
   * the cycle error of `follow` on an option. Each union is entered at most once, so the
   * walk ends on every store.
   */
  function WalkOptions(s: Store, options: seq<TypeId>, i: nat, entered: set<TypeId>, acc: seq<TypeId>): (res: Option<(seq<TypeId>, set<TypeId>)>)
    requires Closed(s) && InStore(s, options) && i <= |options|
    requires YieldsLeaves(s, acc)
    ensures res.Some? ==> acc <= res.value.0 && entered <= res.value.1 && YieldsLeaves(s, res.value.0)
    decreases s.Keys - entered, |options| - i
  {
    if i == |options| then Some((acc, entered))
    else
      var f := FollowAny(s, options[i]);
      if f.None? then None
      else if !s[f.value].UnionType? then WalkOptions(s, options, i + 1, entered, acc + [options[i]])
      else if f.value in entered then WalkOptions(s, options, i + 1, entered, acc)
      else
        assert NodeClosed(s, s[f.value]);
        match WalkOptions(s, s[f.value].options, 0, entered + {f.value}, acc)
        case None => None
        case Some(inner) => WalkOptions(s, options, i + 1, inner.1, inner.0)
  }

  /** What `for (TypeId part : union)` visits on any store, or None for a cycle of bound types. */
  function UnionWalk(s: Store, u: TypeId): (parts: Option<seq<TypeId>>)
    requires Closed(s) && u in s && s[u].UnionType?
    ensures parts.Some? ==> YieldsLeaves(s, parts.value)
  {
    assert NodeClosed(s, s[u]);
    match WalkOptions(s, s[u].options, 0, {u}, [])
    case None => None
    case Some(res) => Some(res.0)
  }

  /** On a well-founded store the walk never fails and is the iterator `IterateOptions`. */
  lemma {:induction false} WalkAgrees(s: Store, owner: TypeId, options: seq<TypeId>, i: nat, entered: set<TypeId>, acc: seq<TypeId>)
    requires WellFounded(s) && owner in s && AllBelow(s, owner, options) && i <= |options|
    requires LeafIds(s, acc)
    ensures Closed(s) && InStore(s, options) && YieldsLeaves(s, acc)
    ensures WalkOptions(s, options, i, entered, acc) == Some(IterateOptions(s, owner, options, i, entered, acc))
    decreases owner, |options| - i
  {
    WellFoundedClosed(s);
    assert InStore(s, options) by {
      forall x | x in options ensures x in s {
        var k :| 0 <= k < |options| && options[k] == x;
        assert Below(s, owner, options[k]);
      }
    }
    forall k | 0 <= k < |acc| ensures FollowAny(s, acc[k]) == Some(Follow(s, acc[k])) {
      FollowAnyWellFounded(s, acc[k]);
    }
    if i < |options| {
      FollowAnyWellFounded(s, options[i]);
      var f := Follow(s, options[i]);
      assert Below(s, owner, options[i]);
      if !s[f].UnionType? {
        WalkAgrees(s, owner, options, i + 1, entered, acc + [options[i]]);
      } else if f in entered {
        WalkAgrees(s, owner, options, i + 1, entered, acc);
      } else {
        var inner := IterateOptions(s, f, s[f].options, 0, entered + {f}, acc);
        WalkAgrees(s, f, s[f].options, 0, entered + {f}, acc);
        WalkAgrees(s, owner, options, i + 1, inner.1, inner.0);
      }
    }
  }

  /** The union iterator on a well-founded store: it succeeds, with the parts `UnionParts` lists. */
  lemma UnionWalkAgrees(s: Store, u: TypeId)
    requires WellFounded(s) && u in s && s[u].UnionType?
    ensures Closed(s) && UnionWalk(s, u) == Some(UnionParts(s, u))
  {
    WalkAgrees(s, u, s[u].options, 0, {u}, []);
  }

  /** `t1` where `t1 = t1 | never`: the union holds itself as its first option. */
  function SelfUnionStore(): Store {
    map[0 := NeverType, 1 := UnionType([1, 0])]
  }

  /**
   * The iterator over the self-containing union skips the re-entry and yields only
   * `never`, so `relate` and `union_` see a union of one part.
   */
  lemma SelfUnionWalk()
    ensures Closed(SelfUnionStore()) && UnionWalk(SelfUnionStore(), 1) == Some([0])
  {
    var s := SelfUnionStore();
    assert NodeClosed(s, s[0]) && NodeClosed(s, s[1]);
    assert Closed(s);
    assert FollowAny(s, 1) == Some(1);
    assert FollowAny(s, 0) == Some(0);
    assert WalkOptions(s, [1, 0], 2, {1}, [0]) == Some(([0], {1}));
    var none: seq<TypeId> := [];
    assert none + [0] == [0];
    assert !s[0].UnionType?;
    assert WalkOptions(s, [1, 0], 1, {1}, none) == WalkOptions(s, [1, 0], 2, {1}, none + [0]);
    assert WalkOptions(s, [1, 0], 0, {1}, none) == WalkOptions(s, [1, 0], 1, {1}, none);
  }

  /** Two bound types bound to each other, and a union of one of them. */
  function BoundCycleStore(): Store {
    map[0 := BoundType(1), 1 := BoundType(0), 2 := UnionType([0])]
  }

  /** A union whose option follows into a cycle of bound types fails with follow's error. */
  lemma BoundCycleWalk()
    ensures Closed(BoundCycleStore()) && UnionWalk(BoundCycleStore(), 2) == None
  {
    var s := BoundCycleStore();
    assert NodeClosed(s, s[0]) && NodeClosed(s, s[1]) && NodeClosed(s, s[2]);
    assert Closed(s);
    assert BoundSucc(s) == map[0 := 1, 1 := 0];
    assert Chains.FollowFuel(BoundSucc(s), 0, 2) == None;
  }

  predicate IsPrim(n: TypeNode, kind: PrimitiveKind) {
    n.PrimitiveType? && n.kind == kind
  }

  predicate StringAtom(n: TypeNode) {
    IsPrim(n, String) || (n.SingletonType? && n.variant.StringSingleton?)
  }

  predicate BooleanAtom(n: TypeNode) {
    IsPrim(n, Boolean) || (n.SingletonType? && n.variant.BooleanSingleton?)
  }

  predicate MaybeStringAtom(n: TypeNode) {
    IsPrim(n, String) || n.AnyType?
  }

  predicate OptionalAtom(n: TypeNode) {
    IsPrim(n, NilType) || n.AnyType? || n.UnknownType?
  }

  /** `isString` (Type.cpp:199-210): a subtype of string. */
  predicate IsString(s: Store, t: TypeId)
    requires WellFounded(s) && t in s
  {
    var f := Follow(s, t);
    StringAtom(s[f]) || (s[f].UnionType? && AllLeaves(s, f, StringAtom))
  }

  /** `isBoolean` (Type.cpp:182-191). */
  predicate IsBoolean(s: Store, t: TypeId)
    requires WellFounded(s) && t in s
  {
    var f := Follow(s, t);
    BooleanAtom(s[f]) || (s[f].UnionType? && AllLeaves(s, f, BooleanAtom))
  }

  /** `maybeString` (Type.cpp:213-224): a supertype of string. */
  predicate MaybeString(s: Store, t: TypeId)
    requires WellFounded(s) && t in s
  {
    var f := Follow(s, t);
    MaybeStringAtom(s[f]) || (s[f].UnionType? && AnyLeaf(s, f, MaybeStringAtom))
  }

  /** `isOptional` (Type.cpp:236-251). */
  predicate IsOptional(s: Store, t: TypeId)
    requires WellFounded(s) && t in s
  {
    var f := Follow(s, t);
    OptionalAtom(s[f]) || (s[f].UnionType? && AnyLeaf(s, f, OptionalAtom))
  }

  /** For a non-union, every-leaf and some-leaf both reduce to the node itself. */
  lemma LeafOfNonUnion(s: Store, t: TypeId, p: TypeNode -> bool)
    requires WellFounded(s) && t in s && !s[Follow(s, t)].UnionType?
    ensures AllLeaves(s, t, p) == p(s[Follow(s, t)])
    ensures AnyLeaf(s, t, p) == p(s[Follow(s, t)])
  {
  }

  /** A union is a string subtype exactly when every option is. */
  lemma IsStringUnion(s: Store, t: TypeId)
    requires WellFounded(s) && t in s && s[Follow(s, t)].UnionType?
    ensures var options := s[Follow(s, t)].options;
      IsString(s, t) <==> forall i :: 0 <= i < |options| ==> IsString(s, options[i])
  {
    var options := s[Follow(s, t)].options;
    forall i | 0 <= i < |options|
      ensures IsString(s, options[i]) == AllLeaves(s, options[i], StringAtom)
    {
      if !s[Follow(s, options[i])].UnionType? {
        LeafOfNonUnion(s, options[i], StringAtom);
      }
    }
  }

  /** A union is boolean exactly when every option is. */
  lemma IsBooleanUnion(s: Store, t: TypeId)
    requires WellFounded(s) && t in s && s[Follow(s, t)].UnionType?
    ensures var options := s[Follow(s, t)].options;
      IsBoolean(s, t) <==> forall i :: 0 <= i < |options| ==> IsBoolean(s, options[i])
  {
    var options := s[Follow(s, t)].options;
    forall i | 0 <= i < |options|
      ensures IsBoolean(s, options[i]) == AllLeaves(s, options[i], BooleanAtom)
    {
      if !s[Follow(s, options[i])].UnionType? {
        LeafOfNonUnion(s, options[i], BooleanAtom);
      }
    }
  }

  /** A union may be a string supertype exactly when some option may. */
  lemma MaybeStringUnion(s: Store, t: TypeId)
    requires WellFounded(s) && t in s && s[Follow(s, t)].UnionType?
    ensures var options := s[Follow(s, t)].options;
      MaybeString(s, t) <==> exists i :: 0 <= i < |options| && MaybeString(s, options[i])
  {
    var options := s[Follow(s, t)].options;
    forall i | 0 <= i < |options|
      ensures MaybeString(s, options[i]) == AnyLeaf(s, options[i], MaybeStringAtom)
    {
      if !s[Follow(s, options[i])].UnionType? {
        LeafOfNonUnion(s, options[i], MaybeStringAtom);
      }
    }
  }

  /** A union is optional exactly when some option is. */
  lemma IsOptionalUnion(s: Store, t: TypeId)
    requires WellFounded(s) && t in s && s[Follow(s, t)].UnionType?
    ensures var options := s[Follow(s, t)].options;
      IsOptional(s, t) <==> exists i :: 0 <= i < |options| && IsOptional(s, options[i])
  {
    var options := s[Follow(s, t)].options;
    forall i | 0 <= i < |options|
      ensures IsOptional(s, options[i]) == AnyLeaf(s, options[i], OptionalAtom)
    {
      if !s[Follow(s, options[i])].UnionType? {
        LeafOfNonUnion(s, options[i], OptionalAtom);
      }
    }
  }

  // ---------------------------------------------------------------------------------
  // flattenIntersection

  /**
   * The followed types reachable from `t` through intersection parts, `follow(t)` included:
   * the reference against which the breadth-first walk of `flattenIntersection` is judged.
   */
  ghost function Reach(s: Store, t: TypeId): (r: set<TypeId>)
    requires WellFounded(s) && t in s
    ensures Follow(s, t) in r
    ensures forall x :: x in r ==> x in s && !s[x].BoundType?
    decreases t, 1, 0
  {
    var f := Follow(s, t);
    {f} + (if s[f].IntersectionType? then PartsReach(s, f, s[f].parts) else {})
  }

  ghost function PartsReach(s: Store, owner: TypeId, ps: seq<TypeId>): (r: set<TypeId>)
    requires WellFounded(s) && owner in s && AllBelow(s, owner, ps)
    ensures forall x :: x in r ==> x in s && !s[x].BoundType?
    decreases owner, 0, |ps|
  {
    if ps == [] then {} else Reach(s, ps[0]) + PartsReach(s, owner, ps[1..])
  }

  lemma {:induction false} PartsReachMember(s: Store, owner: TypeId, ps: seq<TypeId>, x: TypeId)
    requires WellFounded(s) && owner in s && AllBelow(s, owner, ps)
    ensures x in PartsReach(s, owner, ps) <==> exists i :: 0 <= i < |ps| && x in Reach(s, ps[i])
    decreases |ps|
  {
    if ps != [] {
      PartsReachMember(s, owner, ps[1..], x);
      if exists i :: 0 <= i < |ps| && x in Reach(s, ps[i]) {
        var i :| 0 <= i < |ps| && x in Reach(s, ps[i]);
        if i > 0 {
          assert ps[1..][i - 1] == ps[i];
        }
      }
      if exists i :: 0 <= i < |ps[1..]| && x in Reach(s, ps[1..][i]) {
        var i :| 0 <= i < |ps[1..]| && x in Reach(s, ps[1..][i]);
        assert ps[i + 1] == ps[1..][i];
      }
    }
  }

  /** `Reach` is closed under taking the parts of a reached intersection. */
  lemma {:induction false} ReachClosed(s: Store, t: TypeId, x: TypeId, i: nat)
    requires WellFounded(s) && t in s && x in Reach(s, t) && s[x].IntersectionType?
    requires i < |s[x].parts|
    ensures s[x].parts[i] in s && Reach(s, s[x].parts[i]) <= Reach(s, t)
    decreases t
  {
    var f := Follow(s, t);
    assert s[f].IntersectionType?;
    if x == f {
      forall y | y in Reach(s, s[x].parts[i]) ensures y in Reach(s, t) {
        PartsReachMember(s, f, s[f].parts, y);
      }
    } else {
      assert x in PartsReach(s, f, s[f].parts);
      PartsReachMember(s, f, s[f].parts, x);
      var j :| 0 <= j < |s[f].parts| && x in Reach(s, s[f].parts[j]);
      ReachClosed(s, s[f].parts[j], x, i);
      forall y | y in Reach(s, s[f].parts[j]) ensures y in Reach(s, t) {
        PartsReachMember(s, f, s[f].parts, y);
      }
    }
  }

  /** Every set that holds `follow(t)` and is closed under intersection parts holds `Reach(t)`. */
  ghost predicate PartsClosed(s: Store, seen: set<TypeId>)
    requires WellFounded(s)
  {
    forall x, i :: x in seen && x in s && s[x].IntersectionType? && 0 <= i < |s[x].parts| ==>
      Follow(s, s[x].parts[i]) in seen
  }

  lemma {:induction false} ReachLeast(s: Store, t: TypeId, seen: set<TypeId>)
    requires WellFounded(s) && t in s && PartsClosed(s, seen) && Follow(s, t) in seen
    ensures Reach(s, t) <= seen
    decreases t
  {
    var f := Follow(s, t);
    if s[f].IntersectionType? {
      forall y | y in PartsReach(s, f, s[f].parts) ensures y in seen {
        PartsReachMember(s, f, s[f].parts, y);
        var j :| 0 <= j < |s[f].parts| && y in Reach(s, s[f].parts[j]);
        ReachLeast(s, s[f].parts[j], seen);
      }
    }
  }

  // The breadth-first order, level by level

  predicate InStore(s: Store, xs: seq<TypeId>) {
    forall x :: x in xs ==> x in s
  }

  /** `follow` applied to every id of `xs`. */
  ghost function FollowAll(s: Store, xs: seq<TypeId>): (r: seq<TypeId>)
    requires WellFounded(s) && InStore(s, xs)
    ensures |r| == |xs| && forall k :: 0 <= k < |xs| ==> r[k] == Follow(s, xs[k])
    ensures InStore(s, r)
  {
    if xs == [] then [] else [Follow(s, xs[0])] + FollowAll(s, xs[1..])
  }

  /** The followed parts of the intersections among `frontier`, in order. */
  ghost function Children(s: Store, frontier: seq<TypeId>): (r: seq<TypeId>)
    requires WellFounded(s) && InStore(s, frontier)
    ensures InStore(s, r)
  {
    if frontier == [] then []
    else
      var x := frontier[|frontier| - 1];
      Children(s, frontier[..|frontier| - 1]) + (if s[x].IntersectionType? then FollowAll(s, s[x].parts) else [])
  }

  /** The elements of `xs` that are not excluded, each at its first occurrence. */
  ghost function Fresh(xs: seq<TypeId>, excluded: set<TypeId>): (r: seq<TypeId>)
    ensures forall x :: x in r ==> x in xs && x !in excluded
  {
    if xs == [] then []
    else
      var init, x := xs[..|xs| - 1], xs[|xs| - 1];
      Fresh(init, excluded) + (if x in excluded || x in init then [] else [x])
  }

  /** The members of `xs` that are not intersections, in order. */
  ghost function NonIntersections(s: Store, xs: seq<TypeId>): seq<TypeId>
    requires InStore(s, xs)
  {
    if xs == [] then []
    else
      var x := xs[|xs| - 1];
      NonIntersections(s, xs[..|xs| - 1]) + (if s[x].IntersectionType? then [] else [x])
  }

  /**
   * Breadth first, one level at a time: the non-intersections of `frontier`, then the
   * levels below it, whose first level is the new followed parts of the frontier's
   * intersections. `seen` holds the levels above.
   */
  ghost function Levels(s: Store, frontier: seq<TypeId>, seen: set<TypeId>): seq<TypeId>
    requires WellFounded(s) && InStore(s, frontier)
    requires forall x :: x in frontier ==> x !in seen
    decreases s.Keys - seen
  {
    if frontier == [] then []
    else
      var seen1 := seen + Elems(frontier);
      assert frontier[0] in s.Keys - seen;
      NonIntersections(s, frontier) + Levels(s, Fresh(Children(s, frontier), seen1), seen1)
  }

  /** The order in which `flattenIntersection` is meant to list the parts of `ty`. */
  ghost function BreadthFirst(s: Store, ty: TypeId): seq<TypeId>
    requires WellFounded(s) && ty in s
  {
    Levels(s, [Follow(s, ty)], {})
  }

  lemma FreshAppend(xs: seq<TypeId>, x: TypeId, excluded: set<TypeId>)
    ensures Fresh(xs + [x], excluded) == Fresh(xs, excluded) + (if x in excluded || x in xs then [] else [x])
  {
    assert (xs + [x])[..|xs|] == xs;
  }

  lemma {:induction false} FreshCovers(xs: seq<TypeId>, excluded: set<TypeId>, y: TypeId)
    ensures y in excluded || y in Fresh(xs, excluded) <==> y in excluded || y in xs
    decreases |xs|
  {
    if xs != [] {
      var init := xs[..|xs| - 1];
      assert xs == init + [xs[|xs| - 1]];
      FreshCovers(init, excluded, y);
    }
  }

  lemma ChildrenAppend(s: Store, frontier: seq<TypeId>, x: TypeId)
    requires WellFounded(s) && InStore(s, frontier) && x in s
    ensures InStore(s, frontier + [x])
    ensures Children(s, frontier + [x]) ==
      Children(s, frontier) + (if s[x].IntersectionType? then FollowAll(s, s[x].parts) else [])
  {
    assert (frontier + [x])[..|frontier|] == frontier;
  }

  lemma NonIntersectionsAppend(s: Store, xs: seq<TypeId>, x: TypeId)
    requires InStore(s, xs) && x in s
    ensures InStore(s, xs + [x])
    ensures NonIntersections(s, xs + [x]) == NonIntersections(s, xs) + (if s[x].IntersectionType? then [] else [x])
  {
    assert (xs + [x])[..|xs|] == xs;
  }

  /**
   * The loop's state within one level: `levelRaw` is the queue's content at the start of
   * the level, `done` its popped prefix, `nextRaw` the parts queued since; `seenBefore`
   * and `rBefore` are `seen` and the result at the start of the level.
   */
  ghost predicate LevelState(s: Store, ty: TypeId, queue: seq<TypeId>, seen: set<TypeId>, r: seq<TypeId>,
                             levelRaw: seq<TypeId>, done: seq<TypeId>, nextRaw: seq<TypeId>,
                             seenBefore: set<TypeId>, rBefore: seq<TypeId>)
    requires WellFounded(s) && ty in s
  {
    && InStore(s, levelRaw) && InStore(s, nextRaw)
    && done <= levelRaw && queue == levelRaw[|done|..] + nextRaw
    && (var popped := Fresh(FollowAll(s, done), seenBefore);
        && seen == seenBefore + Elems(popped)
        && r == rBefore + NonIntersections(s, popped)
        && FollowAll(s, nextRaw) == Children(s, popped))
    && BreadthFirst(s, ty) == rBefore + Levels(s, Fresh(FollowAll(s, levelRaw), seenBefore), seenBefore)
  }

  lemma Associative(a: seq<TypeId>, b: seq<TypeId>, c: seq<TypeId>)
    ensures a + (b + c) == (a + b) + c
  {
  }

  /** `Levels` peels off one level. */
  lemma LevelsUnfold(s: Store, frontier: seq<TypeId>, seen: set<TypeId>)
    requires WellFounded(s) && InStore(s, frontier) && forall x :: x in frontier ==> x !in seen
    ensures var seen1 := seen + Elems(frontier);
      Levels(s, frontier, seen) == NonIntersections(s, frontier) + Levels(s, Fresh(Children(s, frontier), seen1), seen1)
  {
    if frontier == [] {
      assert Children(s, frontier) == [];
      assert Fresh([], seen) == [];
    }
  }

  /** When the level's entries are all popped, the queue holds the next level. */
  lemma NextLevel(s: Store, ty: TypeId, queue: seq<TypeId>, seen: set<TypeId>, r: seq<TypeId>,
                  levelRaw: seq<TypeId>, nextRaw: seq<TypeId>, seenBefore: set<TypeId>, rBefore: seq<TypeId>)
    requires WellFounded(s) && ty in s
    requires LevelState(s, ty, queue, seen, r, levelRaw, levelRaw, nextRaw, seenBefore, rBefore)
    ensures LevelState(s, ty, queue, seen, r, nextRaw, [], [], seen, r)
  {
    var level := Fresh(FollowAll(s, levelRaw), seenBefore);
    assert seen == seenBefore + Elems(level);
    assert r == rBefore + NonIntersections(s, level);
    assert FollowAll(s, nextRaw) == Children(s, level);
    var below := Levels(s, Fresh(Children(s, level), seen), seen);
    var ni := NonIntersections(s, level);
    assert Levels(s, level, seenBefore) == ni + below by {
      LevelsUnfold(s, level, seenBefore);
    }
    Associative(rBefore, ni, below);
    var none: seq<TypeId> := [];
    assert FollowAll(s, none) == [] && Fresh([], seen) == [] && Children(s, []) == [] && NonIntersections(s, []) == [];
    assert Elems(none) == {};
    assert queue == nextRaw[|none|..] + none;
  }

  lemma PartsInStore(s: Store, x: TypeId)
    requires WellFounded(s) && x in s && s[x].IntersectionType?
    ensures InStore(s, s[x].parts)
  {
    forall y | y in s[x].parts ensures y in s {
      var i :| 0 <= i < |s[x].parts| && s[x].parts[i] == y;
      assert Below(s, x, s[x].parts[i]);
    }
  }

  lemma FollowAllAppend(s: Store, xs: seq<TypeId>, ys: seq<TypeId>)
    requires WellFounded(s) && InStore(s, xs) && InStore(s, ys)
    ensures InStore(s, xs + ys)
    ensures FollowAll(s, xs + ys) == FollowAll(s, xs) + FollowAll(s, ys)
  {
  }

  lemma DropFront(a: seq<TypeId>, k: nat, b: seq<TypeId>)
    requires k < |a|
    ensures (a[k..] + b)[0] == a[k] && (a[k..] + b)[1..] == a[k + 1..] + b
    ensures a[..k] + [a[k]] == a[..k + 1]
  {
  }

  /** Popping `x`: the followed entry is new to the level exactly when it is not yet seen. */
  lemma PoppedGrows(s: Store, done: seq<TypeId>, x: TypeId, seenBefore: set<TypeId>)
    requires WellFounded(s) && InStore(s, done) && x in s
    ensures InStore(s, done + [x])
    ensures var popped := Fresh(FollowAll(s, done), seenBefore);
      var current := Follow(s, x);
      Fresh(FollowAll(s, done + [x]), seenBefore) ==
        popped + (if current in seenBefore + Elems(popped) then [] else [current])
  {
    var current := Follow(s, x);
    assert FollowAll(s, done + [x]) == FollowAll(s, done) + [current];
    FreshAppend(FollowAll(s, done), current, seenBefore);
    FreshCovers(FollowAll(s, done), seenBefore, current);
  }

  /** Popping an entry that follows to a seen type changes nothing but the queue. */
  lemma PopSeen(s: Store, ty: TypeId, queue: seq<TypeId>, seen: set<TypeId>, r: seq<TypeId>,
                levelRaw: seq<TypeId>, done: seq<TypeId>, nextRaw: seq<TypeId>, seenBefore: set<TypeId>, rBefore: seq<TypeId>)
    requires WellFounded(s) && ty in s && |done| < |levelRaw|
    requires LevelState(s, ty, queue, seen, r, levelRaw, done, nextRaw, seenBefore, rBefore)
    requires Follow(s, queue[0]) in seen
    ensures LevelState(s, ty, queue[1..], seen, r, levelRaw, done + [queue[0]], nextRaw, seenBefore, rBefore)
  {
    var x := queue[0];
    DropFront(levelRaw, |done|, nextRaw);
    assert done == levelRaw[..|done|];
    assert x == levelRaw[|done|];
    assert done + [x] == levelRaw[..|done| + 1];
    PopSeenRecords(s, done, x, seen, seenBefore);
  }

  /** Popping an entry that follows to a seen type adds nothing to the fresh types popped. */
  lemma PopSeenRecords(s: Store, done: seq<TypeId>, x: TypeId, seen: set<TypeId>, seenBefore: set<TypeId>)
    requires WellFounded(s) && InStore(s, done) && x in s
    requires seen == seenBefore + Elems(Fresh(FollowAll(s, done), seenBefore))
    requires Follow(s, x) in seen
    ensures InStore(s, done + [x])
    ensures Fresh(FollowAll(s, done + [x]), seenBefore) == Fresh(FollowAll(s, done), seenBefore)
  {
    PoppedGrows(s, done, x, seenBefore);
    var popped := Fresh(FollowAll(s, done), seenBefore);
    assert popped + [] == popped;
  }

  /** Popping an entry that follows to a new type records it, and queues its parts if it is an intersection. */
  lemma PopNew(s: Store, ty: TypeId, queue: seq<TypeId>, seen: set<TypeId>, r: seq<TypeId>,
               levelRaw: seq<TypeId>, done: seq<TypeId>, nextRaw: seq<TypeId>, seenBefore: set<TypeId>, rBefore: seq<TypeId>)
    requires WellFounded(s) && ty in s && |done| < |levelRaw|
    requires LevelState(s, ty, queue, seen, r, levelRaw, done, nextRaw, seenBefore, rBefore)
    requires Follow(s, queue[0]) !in seen
    ensures var current := Follow(s, queue[0]);
      if s[current].IntersectionType? then
        LevelState(s, ty, queue[1..] + s[current].parts, seen + {current}, r,
                   levelRaw, done + [queue[0]], nextRaw + s[current].parts, seenBefore, rBefore)
      else
        LevelState(s, ty, queue[1..], seen + {current}, r + [current],
                   levelRaw, done + [queue[0]], nextRaw, seenBefore, rBefore)
  {
    var x := queue[0];
    DropFront(levelRaw, |done|, nextRaw);
    assert done == levelRaw[..|done|];
    assert x == levelRaw[|done|];
    assert done + [x] == levelRaw[..|done| + 1];
    var current := Follow(s, x);
    var parts := if s[current].IntersectionType? then s[current].parts else [];
    assert queue[1..] + parts == levelRaw[|done| + 1..] + (nextRaw + parts) by {
      Associative(levelRaw[|done| + 1..], nextRaw, parts);
    }
    PopNewRecords(s, done, x, seen, r, nextRaw, seenBefore, rBefore);
    if s[current].IntersectionType? {
      assert r + [] == r;
    } else {
      assert queue[1..] + parts == queue[1..] && nextRaw + parts == nextRaw;
    }
  }

  /** The recorded part of the level state after popping an entry that follows to a new type. */
  lemma PopNewRecords(s: Store, done: seq<TypeId>, x: TypeId, seen: set<TypeId>, r: seq<TypeId>,
                      nextRaw: seq<TypeId>, seenBefore: set<TypeId>, rBefore: seq<TypeId>)
    requires WellFounded(s) && InStore(s, done) && InStore(s, nextRaw) && x in s
    requires var popped := Fresh(FollowAll(s, done), seenBefore);
      && seen == seenBefore + Elems(popped)
      && r == rBefore + NonIntersections(s, popped)
      && FollowAll(s, nextRaw) == Children(s, popped)
    requires Follow(s, x) !in seen
    ensures InStore(s, done + [x])
    ensures var current := Follow(s, x);
      var parts := if s[current].IntersectionType? then s[current].parts else [];
      var popped1 := Fresh(FollowAll(s, done + [x]), seenBefore);
      && InStore(s, nextRaw + parts)
      && seen + {current} == seenBefore + Elems(popped1)
      && r + (if s[current].IntersectionType? then [] else [current]) == rBefore + NonIntersections(s, popped1)
      && FollowAll(s, nextRaw + parts) == Children(s, popped1)
  {
    var current := Follow(s, x);
    PoppedGrows(s, done, x, seenBefore);
    var popped := Fresh(FollowAll(s, done), seenBefore);
    assert Fresh(FollowAll(s, done + [x]), seenBefore) == popped + [current];
    PopSeenGrows(seen, seenBefore, popped, current);
    PopLeavesGrow(s, r, rBefore, popped, current);
    PopChildrenGrow(s, nextRaw, popped, current);
  }

  lemma PopSeenGrows(seen: set<TypeId>, seenBefore: set<TypeId>, popped: seq<TypeId>, current: TypeId)
    requires seen == seenBefore + Elems(popped)
    ensures seen + {current} == seenBefore + Elems(popped + [current])
  {
    assert Elems(popped + [current]) == Elems(popped) + {current};
  }

  lemma PopLeavesGrow(s: Store, r: seq<TypeId>, rBefore: seq<TypeId>, popped: seq<TypeId>, current: TypeId)
    requires InStore(s, popped) && current in s
    requires r == rBefore + NonIntersections(s, popped)
    ensures r + (if s[current].IntersectionType? then [] else [current])
         == rBefore + NonIntersections(s, popped + [current])
  {
    var leaf := if s[current].IntersectionType? then [] else [current];
    NonIntersectionsAppend(s, popped, current);
    Associative(rBefore, NonIntersections(s, popped), leaf);
  }

  lemma PopChildrenGrow(s: Store, nextRaw: seq<TypeId>, popped: seq<TypeId>, current: TypeId)
    requires WellFounded(s) && InStore(s, nextRaw) && InStore(s, popped) && current in s
    requires FollowAll(s, nextRaw) == Children(s, popped)
    ensures var parts := if s[current].IntersectionType? then s[current].parts else [];
      && InStore(s, nextRaw + parts)
      && FollowAll(s, nextRaw + parts) == Children(s, popped + [current])
  {
    var parts := if s[current].IntersectionType? then s[current].parts else [];
    if s[current].IntersectionType? {
      PartsInStore(s, current);
    }
    ChildrenAppend(s, popped, current);
    FollowAllAppend(s, nextRaw, parts);
    if !s[current].IntersectionType? {
      assert FollowAll(s, parts) == [];
    }
  }

  /** Before the first pop, the queue is the top level and nothing is recorded. */
  lemma LevelStart(s: Store, ty: TypeId)
    requires WellFounded(s) && ty in s
    ensures LevelState(s, ty, [ty], {}, [], [ty], [], [], {}, [])
  {
    assert FollowAll(s, []) == [] && Children(s, []) == [];
    assert Fresh([], {}) == [] && Elems([]) == {};
    assert Fresh(FollowAll(s, [ty]), {}) == [Follow(s, ty)] by {
      FreshAppend([], Follow(s, ty), {});
    }
  }

  /** With the queue empty, what has been recorded is the whole breadth-first order. */
  lemma LevelFinish(s: Store, ty: TypeId, seen: set<TypeId>, r: seq<TypeId>,
                    levelRaw: seq<TypeId>, done: seq<TypeId>, nextRaw: seq<TypeId>, seenBefore: set<TypeId>, rBefore: seq<TypeId>)
    requires WellFounded(s) && ty in s
    requires LevelState(s, ty, [], seen, r, levelRaw, done, nextRaw, seenBefore, rBefore)
    ensures r == BreadthFirst(s, ty)
  {
    assert |levelRaw[|done|..]| == 0;
    assert done == levelRaw;
    NextLevel(s, ty, [], seen, r, levelRaw, nextRaw, seenBefore, rBefore);
    assert FollowAll(s, nextRaw) == [] && Fresh([], seen) == [];
  }

  predicate Distinct(xs: seq<TypeId>) {
    forall i, j :: 0 <= i < j < |xs| ==> xs[i] != xs[j]
  }

  /** A sequence of intersections has no non-intersections. */
  lemma {:induction false} NoNonIntersections(s: Store, xs: seq<TypeId>)
    requires InStore(s, xs) && forall k :: 0 <= k < |xs| ==> s[xs[k]].IntersectionType?
    ensures NonIntersections(s, xs) == []
    decreases |xs|
  {
    if xs != [] {
      NoNonIntersections(s, xs[..|xs| - 1]);
    }
  }

  /**
   * The first non-intersection of the fresh elements of `xs` is the first non-intersection
   * of `xs`, when it is not excluded.
   */
  lemma {:induction false} FirstNonIntersection(s: Store, xs: seq<TypeId>, excluded: set<TypeId>, j: nat)
    requires InStore(s, xs) && j < |xs| && !s[xs[j]].IntersectionType? && xs[j] !in excluded
    requires forall k :: 0 <= k < j ==> s[xs[k]].IntersectionType?
    ensures InStore(s, Fresh(xs, excluded))
    ensures var ni := NonIntersections(s, Fresh(xs, excluded)); |ni| > 0 && ni[0] == xs[j]
    decreases |xs|
  {
    var init, x := xs[..|xs| - 1], xs[|xs| - 1];
    var newOnes := Fresh(init, excluded);
    var tail := if x in excluded || x in init then [] else [x];
    assert Fresh(xs, excluded) == newOnes + tail;
    if j == |xs| - 1 {
      NoNonIntersections(s, newOnes);
      assert x !in init;
      NonIntersectionsAppend(s, newOnes, x);
    } else {
      FirstNonIntersection(s, init, excluded, j);
      if tail == [] {
        assert newOnes + tail == newOnes;
      } else {
        NonIntersectionsAppend(s, newOnes, x);
      }
    }
  }

  /** Below a top intersection, the breadth-first order starts at the level of its followed parts. */
  lemma BreadthFirstBelowTop(s: Store, ty: TypeId)
    requires WellFounded(s) && ty in s && s[Follow(s, ty)].IntersectionType?
    ensures var f := Follow(s, ty);
      InStore(s, FollowAll(s, s[f].parts)) &&
      BreadthFirst(s, ty) == Levels(s, Fresh(FollowAll(s, s[f].parts), {f}), {f})
  {
    var f := Follow(s, ty);
    PartsInStore(s, f);
    var none: set<TypeId> := {};
    var seen1 := none + Elems([f]);
    assert seen1 == {f};
    assert [f][..0] == [] && NonIntersections(s, []) == [] && Children(s, []) == [];
    assert NonIntersections(s, [f]) == [];
    assert Children(s, [f]) == FollowAll(s, s[f].parts);
    var below := Levels(s, Fresh(Children(s, [f]), seen1), seen1);
    assert BreadthFirst(s, ty) == [] + below by {
      LevelsUnfold(s, [f], none);
    }
    assert [] + below == below;
  }

  /**
   * The breadth-first order starts with the first part of the top intersection, in the
   * order listed, that does not follow to an intersection: the parts of a nested
   * intersection come after every part of the level above.
   */
  lemma BreadthFirstHead(s: Store, ty: TypeId, j: nat)
    requires WellFounded(s) && ty in s
    requires s[Follow(s, ty)].IntersectionType? && j < |s[Follow(s, ty)].parts|
    requires !s[Follow(s, s[Follow(s, ty)].parts[j])].IntersectionType?
    requires forall k :: 0 <= k < j ==> s[Follow(s, s[Follow(s, ty)].parts[k])].IntersectionType?
    ensures var f := Follow(s, ty);
      |BreadthFirst(s, ty)| > 0 && BreadthFirst(s, ty)[0] == Follow(s, s[f].parts[j])
  {
    var f := Follow(s, ty);
    BreadthFirstBelowTop(s, ty);
    PartsInStore(s, f);
    var followed := FollowAll(s, s[f].parts);
    FirstNonIntersection(s, followed, {f}, j);
    LevelsHead(s, Fresh(followed, {f}), {f});
  }

  /** The levels start with the first non-intersection of the top level, when it has one. */
  lemma LevelsHead(s: Store, frontier: seq<TypeId>, seen: set<TypeId>)
    requires WellFounded(s) && InStore(s, frontier) && forall x :: x in frontier ==> x !in seen
    requires |NonIntersections(s, frontier)| > 0
    ensures |Levels(s, frontier, seen)| > 0 && Levels(s, frontier, seen)[0] == NonIntersections(s, frontier)[0]
  {
    var seen1 := seen + Elems(frontier);
    var below := Levels(s, Fresh(Children(s, frontier), seen1), seen1);
    assert Levels(s, frontier, seen) == NonIntersections(s, frontier) + below by {
      LevelsUnfold(s, frontier, seen);
    }
  }

  /** `(number & string) & nil`, with the nested intersection listed first. */
  function NestedStore(): Store {
    map[0 := PrimitiveType(Number), 1 := PrimitiveType(String), 2 := PrimitiveType(NilType),
        3 := IntersectionType([0, 1]), 4 := IntersectionType([3, 2])]
  }

  /** The nested intersection's parts come after `nil`, although it is listed before it. */
  lemma NestedStoreHead()
    ensures WellFounded(NestedStore())
    ensures var order := BreadthFirst(NestedStore(), 4); |order| > 0 && order[0] == 2
  {
    var s := NestedStore();
    assert WellFounded(s);
    assert Follow(s, 4) == 4 && Follow(s, 3) == 3;
    assert s[4].parts == [3, 2];
    BreadthFirstHead(s, 4, 1);
  }

  /** What the loop of `flattenIntersection` keeps about its queue, seen set and result. */
  ghost predicate FlattenState(s: Store, ty: TypeId, queue: seq<TypeId>, seen: set<TypeId>, r: seq<TypeId>)
    requires WellFounded(s) && ty in s
  {
    && seen <= Reach(s, ty)
    && (forall q :: q in queue ==> q in s && Follow(s, q) in Reach(s, ty))
    && (Follow(s, ty) in seen || ty in queue)
    && (forall x, i :: x in seen && s[x].IntersectionType? && 0 <= i < |s[x].parts| ==>
          s[x].parts[i] in queue || Follow(s, s[x].parts[i]) in seen)
    && Distinct(r)
    && (forall x :: x in r <==> x in seen && !s[x].IntersectionType?)
  }

  /** One pop of the queue keeps `FlattenState`. */
  lemma FlattenStep(s: Store, ty: TypeId, queue: seq<TypeId>, seen: set<TypeId>, r: seq<TypeId>)
    requires WellFounded(s) && ty in s && queue != []
    requires FlattenState(s, ty, queue, seen, r)
    ensures queue[0] in s
    ensures var current := Follow(s, queue[0]);
      if current in seen then FlattenState(s, ty, queue[1..], seen, r)
      else if s[current].IntersectionType? then FlattenState(s, ty, queue[1..] + s[current].parts, seen + {current}, r)
      else FlattenState(s, ty, queue[1..], seen + {current}, r + [current])
  {
    var current := Follow(s, queue[0]);
    if current !in seen && s[current].IntersectionType? {
      var parts := s[current].parts;
      forall i | 0 <= i < |parts| ensures parts[i] in s && Follow(s, parts[i]) in Reach(s, ty) {
        ReachClosed(s, ty, current, i);
      }
    }
  }

  /**
   * `flattenIntersection(ty)` (Type.cpp:139-169): `[ty]` itself when `ty` does not follow
   * to an intersection; otherwise every non-intersection type reachable through nested
   * intersections, followed, each once.
   */
  method FlattenIntersection(s: Store, ty: TypeId) returns (r: seq<TypeId>)
    requires WellFounded(s) && ty in s
    ensures !s[Follow(s, ty)].IntersectionType? ==> r == [ty]
    ensures s[Follow(s, ty)].IntersectionType? ==>
      Distinct(r) && forall x :: x in r <==> x in Reach(s, ty) && !s[x].IntersectionType?
    ensures s[Follow(s, ty)].IntersectionType? ==> r == BreadthFirst(s, ty)
  {
    if !s[Follow(s, ty)].IntersectionType? {
      return [ty];
    }
    var seen: set<TypeId> := {};
    var queue := [ty];
    r := [];
    // The current level as queued, its entries popped so far, the next level as queued so
    // far, and what was seen and recorded before the current level.
    ghost var levelRaw, done, nextRaw, seenBefore, rBefore := [ty], [], [], {}, [];
    LevelStart(s, ty);
    while queue != []
      invariant FlattenState(s, ty, queue, seen, r)
      invariant LevelState(s, ty, queue, seen, r, levelRaw, done, nextRaw, seenBefore, rBefore)
      decreases s.Keys - seen, |queue|
    {
      if |done| == |levelRaw| {
        assert done == levelRaw;
        NextLevel(s, ty, queue, seen, r, levelRaw, nextRaw, seenBefore, rBefore);
        levelRaw, done, nextRaw, seenBefore, rBefore := nextRaw, [], [], seen, r;
      }
      FlattenStep(s, ty, queue, seen, r);
      var current := Follow(s, queue[0]);
      if current in seen {
        PopSeen(s, ty, queue, seen, r, levelRaw, done, nextRaw, seenBefore, rBefore);
        done := done + [queue[0]];
        queue := queue[1..];
        continue;
      }
      PopNew(s, ty, queue, seen, r, levelRaw, done, nextRaw, seenBefore, rBefore);
      done := done + [queue[0]];
      queue := queue[1..];
      seen := seen + {current};
      if s[current].IntersectionType? {
        var parts := s[current].parts;
        queue := queue + parts;
        nextRaw := nextRaw + parts;
      } else {
        r := r + [current];
      }
    }
    ReachLeast(s, ty, seen);
    LevelFinish(s, ty, seen, r, levelRaw, done, nextRaw, seenBefore, rBefore);
  }

  // ---------------------------------------------------------------------------------
  // isSubset

  /**
   * `isSubset(super, sub)` (Type.cpp:364-378): every option of `sub` is, by identity,
   * an option of `super`.
   */
  method IsSubset(super: seq<TypeId>, sub: seq<TypeId>) returns (r: bool)
    ensures r <==> forall i :: 0 <= i < |sub| ==> sub[i] in super
  {
    var superTypes: set<TypeId> := {};
    for i := 0 to |super|
      invariant superTypes == set j | 0 <= j < i :: super[j]
    {
      superTypes := superTypes + {super[i]};
    }
    assert forall x :: x in superTypes <==> x in super by {
      forall x ensures x in superTypes <==> x in super {
        if x in super {
          var j :| 0 <= j < |super| && super[j] == x;
        }
      }
    }
    for i := 0 to |sub|
      invariant forall j :: 0 <= j < i ==> sub[j] in super
    {
      if sub[i] !in superTypes {
        return false;
      }
    }
    return true;
  }

  // ---------------------------------------------------------------------------------
  // Property constructors (Type.cpp:675-735)

  function Readonly(ty: TypeId): (p: Property)
    ensures p.IsReadOnly() && p.readTy == Some(ty)
  {
    Property(Some(ty), None)
  }

  function Writeonly(ty: TypeId): (p: Property)
    ensures p.IsWriteOnly() && p.writeTy == Some(ty)
  {
    Property(None, Some(ty))
  }

  function Rw(read: TypeId, write: TypeId): (p: Property)
    ensures p.IsReadWrite() && p.readTy == Some(read) && p.writeTy == Some(write)
    ensures p.IsShared() <==> read == write
  {
    Property(Some(read), Some(write))
  }

  /** `Property::create`: at least one side must be present (the assertion at Type.cpp:710). */
  function Create(read: Option<TypeId>, write: Option<TypeId>): (p: Property)
    requires read.Some? || write.Some?
    ensures p.readTy == read && p.writeTy == write
    ensures p.IsReadOnly() || p.IsWriteOnly() || p.IsReadWrite()
  {
    if read.Some? && write.None? then Readonly(read.value)
    else if read.None? && write.Some? then Writeonly(write.value)
    else Rw(read.value, write.value)
  }

  /** `Property::makeShared`: an existing write type becomes the read type. */
  function MakeShared(p: Property): (q: Property)
    ensures q.readTy == p.readTy
    ensures q.writeTy == (if p.writeTy.Some? then p.readTy else None)
    ensures p.IsReadWrite() ==> q.IsShared()
    ensures p.IsShared() ==> q == p
  {
    if p.writeTy.Some? then Property(p.readTy, p.readTy) else p
  }

  /** The three presence predicates partition every property that has some type. */
  lemma PresencePartition(p: Property)
    requires p.readTy.Some? || p.writeTy.Some?
    ensures p.IsReadOnly() || p.IsWriteOnly() || p.IsReadWrite()
    ensures !(p.IsReadOnly() && p.IsWriteOnly())
    ensures !(p.IsReadOnly() && p.IsReadWrite())
    ensures !(p.IsWriteOnly() && p.IsReadWrite())
    ensures p.IsShared() ==> p.IsReadWrite()
  {
  }

  // ---------------------------------------------------------------------------------
  // Extern class hierarchy walks (Type.cpp:1223-1256, 1347-1370)

  /** The parent of an extern class, when it is itself an extern class (`get<ExternType>`). */
  function ExternParent(s: Store, c: TypeId): (r: Option<TypeId>)
    requires WellFounded(s) && c in s && s[c].ExternType?
    ensures r.Some? ==> r.value < c && r.value in s && s[r.value].ExternType?
  {
    match s[c].parent
    case Some(p) => if s[p].ExternType? then Some(p) else None
    case None => None
  }

  /** The class itself followed by its ancestors, nearest first. */
  function Ancestors(s: Store, c: TypeId): (r: seq<TypeId>)
    requires WellFounded(s) && c in s && s[c].ExternType?
    ensures |r| >= 1 && r[0] == c
    ensures forall i :: 0 <= i < |r| ==> r[i] in s && s[r[i]].ExternType? && r[i] <= c
    decreases c
  {
    match ExternParent(s, c)
    case Some(p) => [c] + Ancestors(s, p)
    case None => [c]
  }

  /** `isSubclass(cls, parent)`: `parent` lies on the parent chain of `cls`, `cls` included. */
  predicate IsSubclass(s: Store, c: TypeId, parent: TypeId)
    requires WellFounded(s) && c in s && s[c].ExternType?
    decreases c
  {
    if c == parent then true
    else match ExternParent(s, c)
      case Some(p) => IsSubclass(s, p, parent)
      case None => false
  }

  lemma {:induction false} IsSubclassAncestors(s: Store, c: TypeId, parent: TypeId)
    requires WellFounded(s) && c in s && s[c].ExternType?
    ensures IsSubclass(s, c, parent) <==> parent in Ancestors(s, c)
    decreases c
  {
    if c != parent && ExternParent(s, c).Some? {
      IsSubclassAncestors(s, ExternParent(s, c).value, parent);
    }
  }

  lemma IsSubclassReflexive(s: Store, c: TypeId)
    requires WellFounded(s) && c in s && s[c].ExternType?
    ensures IsSubclass(s, c, c)
  {
  }

  lemma {:induction false} AncestorsTransitive(s: Store, a: TypeId, b: TypeId)
    requires WellFounded(s) && a in s && s[a].ExternType?
    requires b in Ancestors(s, a)
    ensures forall x :: x in Ancestors(s, b) ==> x in Ancestors(s, a)
    decreases a
  {
    if a != b {
      AncestorsTransitive(s, ExternParent(s, a).value, b);
    }
  }

  /** Subclassing is transitive. */
  lemma IsSubclassTransitive(s: Store, a: TypeId, b: TypeId, c: TypeId)
    requires WellFounded(s) && a in s && s[a].ExternType? && b in s && s[b].ExternType?
    requires IsSubclass(s, a, b) && IsSubclass(s, b, c)
    ensures IsSubclass(s, a, c)
  {
    IsSubclassAncestors(s, a, b);
    IsSubclassAncestors(s, b, c);
    AncestorsTransitive(s, a, b);
    IsSubclassAncestors(s, a, c);
  }

  /** Ancestors have strictly smaller ids, so two distinct classes are never each other's subclass. */
  lemma IsSubclassAntisymmetric(s: Store, a: TypeId, b: TypeId)
    requires WellFounded(s) && a in s && s[a].ExternType? && b in s && s[b].ExternType?
    requires IsSubclass(s, a, b) && IsSubclass(s, b, a)
    ensures a == b
  {
    IsSubclassAncestors(s, a, b);
    IsSubclassAncestors(s, b, a);
  }

  /**
   * `lookupExternTypeProp(cls, name)`: the property of the nearest class on the parent
   * chain that declares `name`.
   */
  function LookupExternTypeProp(s: Store, c: TypeId, name: string): Option<Property>
    requires WellFounded(s) && c in s && s[c].ExternType?
    decreases c
  {
    if name in s[c].props then
      Some(s[c].props[name])
    else match ExternParent(s, c)
      case Some(p) => LookupExternTypeProp(s, p, name)
      case None => None
  }

  /** The lookup succeeds exactly when some class on the chain declares the name, and yields its property. */
  lemma {:induction false} LookupFindsDeclaration(s: Store, c: TypeId, name: string)
    requires WellFounded(s) && c in s && s[c].ExternType?
    ensures var r := LookupExternTypeProp(s, c, name);
      && (r.Some? <==> exists x :: x in Ancestors(s, c) && name in s[x].props)
      && (r.Some? ==> exists x :: x in Ancestors(s, c) && name in s[x].props && s[x].props[name] == r.value)
    decreases c
  {
    if name in s[c].props {
      assert c in Ancestors(s, c);
    } else {
      match ExternParent(s, c)
      case Some(p) =>
        assert Ancestors(s, c) == [c] + Ancestors(s, p);
        LookupFindsDeclaration(s, p, name);
      case None =>
        assert Ancestors(s, c) == [c];
    }
  }

  lemma ConsIndex(x: TypeId, r: seq<TypeId>, i: nat)
    requires 0 < i <= |r|
    ensures ([x] + r)[i] == r[i - 1]
  {
  }

  /** A class without the property defers to its parent, whose ancestors follow it. */
  lemma LookupSkipsClass(s: Store, c: TypeId, name: string)
    requires WellFounded(s) && c in s && s[c].ExternType?
    requires name !in s[c].props && ExternParent(s, c).Some?
    ensures var p := ExternParent(s, c).value;
      && Ancestors(s, c) == [c] + Ancestors(s, p)
      && LookupExternTypeProp(s, c, name) == LookupExternTypeProp(s, p, name)
  {
  }

  /** The `i`-th ancestor of a class is the `i - 1`-th of its parent. */
  lemma NearestInParent(s: Store, c: TypeId, p: TypeId, name: string, i: nat)
    requires WellFounded(s) && c in s && s[c].ExternType? && p in s && s[p].ExternType?
    requires Ancestors(s, c) == [c] + Ancestors(s, p)
    requires 0 < i < |Ancestors(s, c)|
    requires forall j :: 0 <= j < i ==> name !in s[Ancestors(s, c)[j]].props
    ensures Ancestors(s, c)[i] == Ancestors(s, p)[i - 1]
    ensures forall j :: 0 <= j < i - 1 ==> name !in s[Ancestors(s, p)[j]].props
  {
    var above := Ancestors(s, p);
    ConsIndex(c, above, i);
    forall j | 0 <= j < i - 1 ensures name !in s[above[j]].props {
      ConsIndex(c, above, j + 1);
    }
  }

  /** The property found is the one of the NEAREST declaring class: a subclass shadows its parents. */
  lemma {:induction false} LookupNearest(s: Store, c: TypeId, name: string, i: nat)
    requires WellFounded(s) && c in s && s[c].ExternType?
    requires i < |Ancestors(s, c)| && name in s[Ancestors(s, c)[i]].props
    requires forall j :: 0 <= j < i ==> name !in s[Ancestors(s, c)[j]].props
    ensures LookupExternTypeProp(s, c, name) == Some(s[Ancestors(s, c)[i]].props[name])
    decreases c
  {
    if i == 0 {
      assert name in s[c].props;
    } else {
      var p := ExternParent(s, c).value;
      LookupSkipsClass(s, c, name);
      NearestInParent(s, c, p, name, i);
      LookupNearest(s, p, name, i - 1);
    }
  }

  /**
   * `hasTag(TypeId, tag)` for the types of this model: after following, an extern class
   * has the tag when some class on its parent chain carries it; other types carry no tags.
   */
  predicate HasTag(s: Store, t: TypeId, tag: string)
    requires WellFounded(s) && t in s
  {
    var f := Follow(s, t);
    s[f].ExternType? && ChainHasTag(s, f, tag)
  }

  predicate ChainHasTag(s: Store, c: TypeId, tag: string)
    requires WellFounded(s) && c in s && s[c].ExternType?
    decreases c
  {
    if tag in s[c].tags then true
    else match ExternParent(s, c)
      case Some(p) => ChainHasTag(s, p, tag)
      case None => false
  }

  lemma {:induction false} ChainHasTagAncestors(s: Store, c: TypeId, tag: string)
    requires WellFounded(s) && c in s && s[c].ExternType?
    ensures ChainHasTag(s, c, tag) <==> exists x :: x in Ancestors(s, c) && tag in s[x].tags
    decreases c
  {
    if tag in s[c].tags {
      assert c in Ancestors(s, c);
    } else if ExternParent(s, c).Some? {
      var p := ExternParent(s, c).value;
      ChainHasTagAncestors(s, p, tag);
      assert Ancestors(s, c) == [c] + Ancestors(s, p);
    } else {
      assert Ancestors(s, c) == [c];
    }
  }

  /** A subclass inherits every tag of its superclasses. */
  lemma HasTagInherited(s: Store, c: TypeId, parent: TypeId, tag: string)
    requires WellFounded(s) && c in s && s[c].ExternType? && parent in s && s[parent].ExternType?
    requires IsSubclass(s, c, parent) && HasTag(s, parent, tag)
    ensures HasTag(s, c, tag)
  {
    IsSubclassAncestors(s, c, parent);
    AncestorsTransitive(s, c, parent);
    ChainHasTagAncestors(s, parent, tag);
    ChainHasTagAncestors(s, c, tag);
    var x :| x in Ancestors(s, parent) && tag in s[x].tags;
    assert x in Ancestors(s, c);
  }
}
