/**
 * Type packs (TypePack.cpp): the pack store, `follow` on packs, the pack iterator and the
 * queries built on it.
 *
 * A pack is a list of head types with an optional tail pack; a bound pack forwards to
 * another pack; variadic, generic, free and error packs end a chain. `WellFounded` states
 * that bound and tail edges go to smaller ids. `FollowPackChecked` and `GetTail` work on
 * arbitrary stores; the iterator, whose own cycle check only catches a pack whose tail
 * follows back to itself, is modelled on well-founded stores.
 */
module TypePacks {
  import opened Options
  import Chains
  import Types

  type PackId = nat

  datatype PackNode =
    | BoundPack(boundTo: PackId)
    | Pack(head: seq<Types.TypeId>, tail: Option<PackId>)
    | VariadicPack(ty: Types.TypeId, hidden: bool)
    | GenericPack
    | FreePack
    | ErrorPack

  type PackStore = map<PackId, PackNode>

  /** Every reference of the store names a pack of the store. */
  ghost predicate Closed(ps: PackStore) {
    forall id :: id in ps ==>
      match ps[id]
      case BoundPack(b) => b in ps
      case Pack(_, tail) => tail.Some? ==> tail.value in ps
      case _ => true
  }

  /** Bound and tail edges go to strictly smaller ids. */
  ghost predicate WellFounded(ps: PackStore) {
    forall id :: id in ps ==>
      match ps[id]
      case BoundPack(b) => b < id && b in ps
      case Pack(_, tail) => tail.Some? ==> tail.value < id && tail.value in ps
      case _ => true
  }

  // ---------------------------------------------------------------------------------
  // follow (TypePack.cpp:299-348)

  /** `advance`: a bound pack forwards, and so does a pack with no head types and a tail. */
  predicate Advances(n: PackNode) {
    n.BoundPack? || (n.Pack? && n.head == [] && n.tail.Some?)
  }

  function Next(n: PackNode): PackId
    requires Advances(n)
  {
    if n.BoundPack? then n.boundTo else n.tail.value
  }

  function PackSucc(ps: PackStore): Chains.Succ {
    map id | id in ps && Advances(ps[id]) :: Next(ps[id])
  }

  /** `follow` on a well-founded store, by recursion down the chain. */
  function FollowPack(ps: PackStore, p: PackId): (r: PackId)
    requires WellFounded(ps) && p in ps
    ensures r in ps && r <= p && !Advances(ps[r])
    decreases p
  {
    if Advances(ps[p]) then FollowPack(ps, Next(ps[p])) else p
  }

  lemma {:induction false} FollowPackWalks(ps: PackStore, p: PackId)
    requires WellFounded(ps) && p in ps
    ensures exists k :: Chains.Walk(PackSucc(ps), p, k) == Some(FollowPack(ps, p))
    decreases p
  {
    var succ := PackSucc(ps);
    if Advances(ps[p]) {
      var q := Next(ps[p]);
      FollowPackWalks(ps, q);
      var k: nat :| Chains.Walk(succ, q, k) == Some(FollowPack(ps, q));
      assert Chains.Walk(succ, p, k + 1) == Chains.Walk(succ, q, k);
    } else {
      assert Chains.Walk(succ, p, 0) == Some(p);
    }
  }

  /**
   * `follow(TypePackId)` on any store, with the tortoise-and-hare cycle check: None is the
   * "detected a Type cycle" error. The result no longer advances, is the input when the
   * input does not advance, and is the plain recursion's result on a well-founded store.
   */
  method FollowPackChecked(ps: PackStore, p: PackId) returns (r: Option<PackId>)
    ensures r.Some? ==> r.value !in PackSucc(ps)
    ensures r.Some? ==> exists k :: Chains.Walk(PackSucc(ps), p, k) == r
    ensures p !in PackSucc(ps) ==> r == Some(p)
    ensures r.None? <==> forall k :: Chains.Walk(PackSucc(ps), p, k).Some?
    ensures WellFounded(ps) && p in ps ==> r == Some(FollowPack(ps, p))
  {
    r := Chains.Follow(PackSucc(ps), p);
    Chains.FollowSpecEnds(PackSucc(ps), p);
    if WellFounded(ps) && p in ps {
      FollowPackWalks(ps, p);
      var k: nat :| Chains.Walk(PackSucc(ps), p, k) == Some(FollowPack(ps, p));
      Chains.EndIsSpec(PackSucc(ps), p, k);
    }
  }

  // ---------------------------------------------------------------------------------
  // The flattened view: head types along the tail chain, and the pack that ends it

  /**
   * `flatten(tp)` as a recursive definition: the head types of every pack on the
   * (followed) tail chain, and the non-list pack that ends the chain, if any.
   */
  function Flatten(ps: PackStore, p: PackId): (r: (seq<Types.TypeId>, Option<PackId>))
    requires WellFounded(ps) && p in ps
    ensures r.1.Some? ==> r.1.value in ps && !ps[r.1.value].Pack? && !ps[r.1.value].BoundPack?
    decreases p
  {
    var f := FollowPack(ps, p);
    match ps[f]
    case Pack(head, tail) =>
      if tail.None? then (head, None)
      else
        var rest := Flatten(ps, tail.value);
        (head + rest.0, rest.1)
    case _ => ([], Some(f))
  }

  /** What follows the head types of list pack `f`. */
  function TailFlatten(ps: PackStore, f: PackId): (seq<Types.TypeId>, Option<PackId>)
    requires WellFounded(ps) && f in ps && ps[f].Pack?
  {
    if ps[f].tail.None? then ([], None) else Flatten(ps, ps[f].tail.value)
  }

  // ---------------------------------------------------------------------------------
  // TypePackIterator (TypePack.cpp:127-190)

  /** The iterator: at head type `index` of list pack `pack`, or past the end with its tail. */
  datatype Iter = AtHead(pack: PackId, index: nat) | Ended(tail: Option<PackId>)

  ghost predicate ValidIter(ps: PackStore, it: Iter) {
    it.AtHead? ==> it.pack in ps && ps[it.pack].Pack? && it.index < |ps[it.pack].head|
  }

  /** The loop of the constructor and of `operator++`: skip list packs with no head types. */
  function Skip(ps: PackStore, f: PackId): (it: Iter)
    requires WellFounded(ps) && f in ps
    ensures ValidIter(ps, it)
    decreases f
  {
    match ps[f]
    case Pack(head, tail) =>
      if head != [] then AtHead(f, 0)
      else if tail.Some? then Skip(ps, FollowPack(ps, tail.value))
      else Ended(None)
    case _ => Ended(Some(f))
  }

  /** `begin(tp)`. */
  function Begin(ps: PackStore, p: PackId): (it: Iter)
    requires WellFounded(ps) && p in ps
    ensures ValidIter(ps, it)
  {
    Skip(ps, FollowPack(ps, p))
  }

  /** `operator++`. */
  function Advance(ps: PackStore, it: Iter): (it2: Iter)
    requires WellFounded(ps) && ValidIter(ps, it) && it.AtHead?
    ensures ValidIter(ps, it2)
  {
    var n := ps[it.pack];
    if it.index + 1 < |n.head| then AtHead(it.pack, it.index + 1)
    else if n.tail.Some? then Skip(ps, FollowPack(ps, n.tail.value))
    else Ended(None)
  }

  /** What the iterator has still to yield: its remaining head types, then its tail. */
  function Remaining(ps: PackStore, it: Iter): (seq<Types.TypeId>, Option<PackId>)
    requires WellFounded(ps) && ValidIter(ps, it)
  {
    match it
    case Ended(tail) => ([], tail)
    case AtHead(f, i) =>
      var rest := TailFlatten(ps, f);
      (ps[f].head[i..] + rest.0, rest.1)
  }

  lemma {:induction false} SkipRemaining(ps: PackStore, f: PackId)
    requires WellFounded(ps) && f in ps && !Advances(ps[f])
    ensures Remaining(ps, Skip(ps, f)) == Flatten(ps, f)
    decreases f
  {
    assert FollowPack(ps, f) == f;
    match ps[f]
    case Pack(head, tail) =>
      if head == [] && tail.Some? {
        assert false;
      } else if head != [] {
        assert head[0..] == head;
        assert head + [] == head;
        assert Flatten(ps, f) == (head + TailFlatten(ps, f).0, TailFlatten(ps, f).1);
      }
    case _ =>
  }

  /** The iterator starts out with everything `flatten` describes still to come. */
  lemma BeginRemaining(ps: PackStore, p: PackId)
    requires WellFounded(ps) && p in ps
    ensures Remaining(ps, Begin(ps, p)) == Flatten(ps, p)
  {
    var f := FollowPack(ps, p);
    SkipRemaining(ps, f);
    assert FollowPack(ps, f) == f;
  }

  /** Each step yields the first remaining head type and leaves the rest. */
  lemma AdvanceRemaining(ps: PackStore, it: Iter)
    requires WellFounded(ps) && ValidIter(ps, it) && it.AtHead?
    ensures var r := Remaining(ps, it);
      |r.0| > 0 && r.0[0] == ps[it.pack].head[it.index]
      && Remaining(ps, Advance(ps, it)) == (r.0[1..], r.1)
  {
    var n := ps[it.pack];
    var i := it.index;
    var rest := TailFlatten(ps, it.pack);
    assert n.head[i..] == [n.head[i]] + n.head[i + 1..];
    if i + 1 < |n.head| {
      assert (n.head[i..] + rest.0)[1..] == n.head[i + 1..] + rest.0;
    } else if n.tail.Some? {
      var g := FollowPack(ps, n.tail.value);
      SkipRemaining(ps, g);
      assert Flatten(ps, g) == Flatten(ps, n.tail.value) by {
        assert FollowPack(ps, g) == g;
      }
    }
  }

  /** The iteration measure: the current pack id, then the head types left in it. */
  function IterRank(ps: PackStore, it: Iter): nat
    requires ValidIter(ps, it)
  {
    if it.AtHead? then it.pack + 1 else 0
  }

  function IterLeft(ps: PackStore, it: Iter): nat
    requires ValidIter(ps, it)
  {
    if it.AtHead? then |ps[it.pack].head| - it.index else 0
  }

  lemma {:induction false} SkipBelow(ps: PackStore, f: PackId)
    requires WellFounded(ps) && f in ps
    ensures Skip(ps, f).AtHead? ==> Skip(ps, f).pack <= f
    decreases f
  {
    match ps[f]
    case Pack(head, tail) =>
      if head == [] && tail.Some? {
        SkipBelow(ps, FollowPack(ps, tail.value));
      }
    case _ =>
  }

  lemma AdvanceDecreases(ps: PackStore, it: Iter)
    requires WellFounded(ps) && ValidIter(ps, it) && it.AtHead?
    ensures var it2 := Advance(ps, it);
      IterRank(ps, it2) < IterRank(ps, it)
      || (IterRank(ps, it2) == IterRank(ps, it) && IterLeft(ps, it2) < IterLeft(ps, it))
  {
    var n := ps[it.pack];
    if it.index + 1 >= |n.head| && n.tail.Some? {
      SkipBelow(ps, FollowPack(ps, n.tail.value));
    }
  }

  /** `flatten(tp)` (TypePack.cpp:422-435): the iterator loop, yielding `Flatten`. */
  method FlattenPack(ps: PackStore, p: PackId) returns (heads: seq<Types.TypeId>, tail: Option<PackId>)
    requires WellFounded(ps) && p in ps
    ensures (heads, tail) == Flatten(ps, p)
  {
    var it := Begin(ps, p);
    BeginRemaining(ps, p);
    heads := [];
    while it.AtHead?
      invariant ValidIter(ps, it)
      invariant heads + Remaining(ps, it).0 == Flatten(ps, p).0
      invariant Remaining(ps, it).1 == Flatten(ps, p).1
      decreases IterRank(ps, it), IterLeft(ps, it)
    {
      AdvanceRemaining(ps, it);
      AdvanceDecreases(ps, it);
      var r := Remaining(ps, it);
      heads := heads + [ps[it.pack].head[it.index]];
      assert heads + r.0[1..] == Flatten(ps, p).0 by {
        assert r.0 == [r.0[0]] + r.0[1..];
      }
      it := Advance(ps, it);
    }
    tail := it.tail;
    assert heads + [] == heads;
  }

  // ---------------------------------------------------------------------------------
  // Queries (TypePack.cpp:350-420, 502-532)

  /** `size(tp)`: the number of head types along the tail chain. */
  function Size(ps: PackStore, p: PackId): nat
    requires WellFounded(ps) && p in ps
    decreases p, 1
  {
    var f := FollowPack(ps, p);
    if ps[f].Pack? then SizeOfPack(ps, f) else 0
  }

  /** `size(const TypePack&)`: the tail counts only when it follows to a list pack. */
  function SizeOfPack(ps: PackStore, f: PackId): nat
    requires WellFounded(ps) && f in ps && ps[f].Pack?
    decreases f, 0
  {
    var n := ps[f];
    if n.tail.None? then |n.head|
    else
      var t := FollowPack(ps, n.tail.value);
      if ps[t].Pack? then |n.head| + SizeOfPack(ps, t) else |n.head|
  }

  lemma {:induction false} SizeOfPackFlatten(ps: PackStore, f: PackId)
    requires WellFounded(ps) && f in ps && ps[f].Pack? && !Advances(ps[f])
    ensures SizeOfPack(ps, f) == |Flatten(ps, f).0|
    decreases f
  {
    assert FollowPack(ps, f) == f;
    var n := ps[f];
    if n.tail.Some? {
      var t := FollowPack(ps, n.tail.value);
      assert Flatten(ps, n.tail.value) == Flatten(ps, t) by {
        assert FollowPack(ps, t) == t;
      }
      if ps[t].Pack? {
        SizeOfPackFlatten(ps, t);
      }
    }
  }

  /** `size` counts exactly the head types the iterator yields. */
  lemma SizeIsFlattenLength(ps: PackStore, p: PackId)
    requires WellFounded(ps) && p in ps
    ensures Size(ps, p) == |Flatten(ps, p).0|
  {
    var f := FollowPack(ps, p);
    if ps[f].Pack? {
      SizeOfPackFlatten(ps, f);
    }
    assert Flatten(ps, p) == Flatten(ps, f) by {
      assert FollowPack(ps, f) == f;
    }
  }

  /** `finite(tp)`: the chain does not end in a variadic pack. */
  predicate Finite(ps: PackStore, p: PackId)
    requires WellFounded(ps) && p in ps
    decreases p
  {
    var f := FollowPack(ps, p);
    match ps[f]
    case Pack(_, tail) => if tail.Some? then Finite(ps, tail.value) else true
    case VariadicPack(_, _) => false
    case _ => true
  }

  lemma {:induction false} FiniteFlatten(ps: PackStore, p: PackId)
    requires WellFounded(ps) && p in ps
    ensures Finite(ps, p) <==> !(Flatten(ps, p).1.Some? && ps[Flatten(ps, p).1.value].VariadicPack?)
    decreases p
  {
    var f := FollowPack(ps, p);
    if ps[f].Pack? && ps[f].tail.Some? {
      FiniteFlatten(ps, ps[f].tail.value);
    }
  }

  /**
   * `isEmpty(tp)`: the followed pack is a list pack with no head types and no tail. The
   * source also recurses into the tail, but `follow` has already moved past every list
   * pack with no head types and a tail, so that call is never reached.
   */
  predicate IsEmpty(ps: PackStore, p: PackId)
    requires WellFounded(ps) && p in ps
  {
    var f := FollowPack(ps, p);
    match ps[f]
    case Pack(head, tail) => head == [] && tail.None?
    case _ => false
  }

  /** A pack is empty exactly when the iterator yields nothing and no tail. */
  lemma IsEmptyFlatten(ps: PackStore, p: PackId)
    requires WellFounded(ps) && p in ps
    ensures IsEmpty(ps, p) <==> Flatten(ps, p) == ([], None)
  {
    var f := FollowPack(ps, p);
    if ps[f].Pack? && ps[f].head != [] {
      assert Flatten(ps, p).0 != [];
    }
  }

  /**
   * `first(tp, ignoreHiddenVariadics)`: the first head type; failing that, the type of a
   * variadic tail, unless it is hidden and hidden ones are ignored.
   */
  function First(ps: PackStore, p: PackId, ignoreHiddenVariadics: bool): Option<Types.TypeId>
    requires WellFounded(ps) && p in ps
  {
    match Begin(ps, p)
    case AtHead(f, i) => Some(ps[f].head[i])
    case Ended(tail) =>
      if tail.Some? && ps[tail.value].VariadicPack?
         && (!ps[tail.value].hidden || !ignoreHiddenVariadics)
      then Some(ps[tail.value].ty)
      else None
  }

  /** `first` is the head of the flattened list, else the visible variadic tail's type. */
  lemma FirstFlatten(ps: PackStore, p: PackId, ignoreHiddenVariadics: bool)
    requires WellFounded(ps) && p in ps
    ensures var fl := Flatten(ps, p);
      First(ps, p, ignoreHiddenVariadics) ==
        if |fl.0| > 0 then Some(fl.0[0])
        else if fl.1.Some? && ps[fl.1.value].VariadicPack? && (!ps[fl.1.value].hidden || !ignoreHiddenVariadics)
        then Some(ps[fl.1.value].ty)
        else None
  {
    BeginRemaining(ps, p);
    var it := Begin(ps, p);
    if it.AtHead? {
      AdvanceRemaining(ps, it);
    }
  }

  /** `isVariadicTail(tp, includeHiddenVariadics)`: a generic pack, or a visible variadic pack. */
  predicate IsVariadicTail(ps: PackStore, p: PackId, includeHiddenVariadics: bool)
    requires p in ps
  {
    ps[p].GenericPack? || (ps[p].VariadicPack? && (includeHiddenVariadics || !ps[p].hidden))
  }

  /** `isVariadic(tp)` (TypePack.cpp:492-500): the flattened pack ends in a variadic tail. */
  predicate IsVariadic(ps: PackStore, p: PackId, includeHiddenVariadics: bool)
    requires WellFounded(ps) && p in ps
  {
    var tail := Flatten(ps, p).1;
    tail.Some? && IsVariadicTail(ps, tail.value, includeHiddenVariadics)
  }

  /** A variadic pack is never finite, and every non-finite pack is variadic once hidden tails count. */
  lemma VariadicNotFinite(ps: PackStore, p: PackId)
    requires WellFounded(ps) && p in ps
    ensures !Finite(ps, p) <==> IsVariadic(ps, p, true) && !ps[Flatten(ps, p).1.value].GenericPack?
  {
    FiniteFlatten(ps, p);
  }

  // ---------------------------------------------------------------------------------
  // containsNever (TypePack.cpp:513-532)

  /** Every type mentioned by the packs lives in the type store. */
  predicate TypesPresent(ps: PackStore, ts: Types.Store) {
    forall id :: id in ps ==>
      match ps[id]
      case Pack(head, _) => forall i :: 0 <= i < |head| ==> head[i] in ts
      case VariadicPack(ty, _) => ty in ts
      case _ => true
  }

  ghost predicate IsNever(ts: Types.Store, t: Types.TypeId)
    requires Types.WellFounded(ts)
  {
    t in ts && ts[Types.Follow(ts, t)].NeverType?
  }

  lemma {:induction false} FlattenTypesPresent(ps: PackStore, ts: Types.Store, p: PackId)
    requires WellFounded(ps) && p in ps && TypesPresent(ps, ts)
    ensures forall i :: 0 <= i < |Flatten(ps, p).0| ==> Flatten(ps, p).0[i] in ts
    decreases p
  {
    var f := FollowPack(ps, p);
    if ps[f].Pack? && ps[f].tail.Some? {
      FlattenTypesPresent(ps, ts, ps[f].tail.value);
    }
  }

  /**
   * `containsNever(tp)`: some head type along the chain follows to never, or the chain
   * ends in a variadic pack of never.
   */
  method ContainsNever(ps: PackStore, ts: Types.Store, p: PackId) returns (r: bool)
    requires WellFounded(ps) && p in ps && Types.WellFounded(ts) && TypesPresent(ps, ts)
    ensures var fl := Flatten(ps, p);
      r <==> (exists i :: 0 <= i < |fl.0| && IsNever(ts, fl.0[i]))
             || (fl.1.Some? && ps[fl.1.value].VariadicPack? && IsNever(ts, ps[fl.1.value].ty))
  {
    FlattenTypesPresent(ps, ts, p);
    var fl := Flatten(ps, p);
    var it := Begin(ps, p);
    BeginRemaining(ps, p);
    ghost var seen: seq<Types.TypeId> := [];
    while it.AtHead?
      invariant ValidIter(ps, it)
      invariant seen + Remaining(ps, it).0 == fl.0
      invariant Remaining(ps, it).1 == fl.1
      invariant forall i :: 0 <= i < |seen| ==> !IsNever(ts, seen[i])
      decreases IterRank(ps, it), IterLeft(ps, it)
    {
      AdvanceRemaining(ps, it);
      AdvanceDecreases(ps, it);
      var rem := Remaining(ps, it);
      var t := ps[it.pack].head[it.index];
      assert rem.0 == [t] + rem.0[1..];
      assert fl.0[|seen|] == t;
      if ts[Types.Follow(ts, t)].NeverType? {
        return true;
      }
      seen := seen + [t];
      it := Advance(ps, it);
    }
    assert seen == fl.0;
    if it.tail.Some? && ps[it.tail.value].VariadicPack? && ts[Types.Follow(ts, ps[it.tail.value].ty)].NeverType? {
      return true;
    }
    return false;
  }

  // ---------------------------------------------------------------------------------
  // getTail (TypePack.cpp:209-227)

  /** The last pack of the followed tail chain: a non-list pack, or a list pack with no tail. */
  function LastPack(ps: PackStore, p: PackId): (r: PackId)
    requires WellFounded(ps) && p in ps
    ensures r in ps && !Advances(ps[r]) && !(ps[r].Pack? && ps[r].tail.Some?)
    decreases p
  {
    var f := FollowPack(ps, p);
    if ps[f].Pack? && ps[f].tail.Some? then LastPack(ps, ps[f].tail.value) else f
  }

  /** The chain's last pack is the tail `flatten` reports, when that is not a list pack. */
  lemma {:induction false} LastPackFlatten(ps: PackStore, p: PackId)
    requires WellFounded(ps) && p in ps
    ensures Flatten(ps, p).1 == (if ps[LastPack(ps, p)].Pack? then None else Some(LastPack(ps, p)))
    decreases p
  {
    var f := FollowPack(ps, p);
    if ps[f].Pack? && ps[f].tail.Some? {
      LastPackFlatten(ps, ps[f].tail.value);
    }
  }

  /**
   * `getTail(tp)` on any closed store: follows tails, stopping at a pack seen before, and
   * returns the followed last pack; None is a cycle error raised by `follow`.
   */
  method GetTail(ps: PackStore, p: PackId) returns (r: Option<PackId>)
    requires Closed(ps) && p in ps
    ensures r.Some? ==> r.value !in PackSucc(ps)
    ensures WellFounded(ps) ==> r == Some(LastPack(ps, p))
  {
    var tp := p;
    var seen: set<PackId> := {};
    while true
      invariant tp in ps && seen <= ps.Keys
      invariant WellFounded(ps) ==> LastPack(ps, tp) == LastPack(ps, p) && forall x :: x in seen ==> tp < x
      decreases ps.Keys - seen
    {
      var followed := FollowPackChecked(ps, tp);
      if followed.None? {
        return None;
      }
      ghost var k: nat :| Chains.Walk(PackSucc(ps), tp, k) == followed;
      WalkStaysInStore(ps, tp, k);
      var f := followed.value;
      if WellFounded(ps) {
        assert f == FollowPack(ps, tp);
        assert FollowPack(ps, f) == f;
      }
      if f in seen {
        r := FollowPackChecked(ps, f);
        return;
      }
      seen := seen + {f};
      if ps[f].Pack? && ps[f].tail.Some? {
        tp := ps[f].tail.value;
      } else {
        r := FollowPackChecked(ps, f);
        return;
      }
    }
  }

  lemma {:induction false} WalkStaysInStore(ps: PackStore, p: PackId, k: nat)
    requires Closed(ps) && p in ps && Chains.Walk(PackSucc(ps), p, k).Some?
    ensures Chains.Walk(PackSucc(ps), p, k).value in ps
    decreases k
  {
    if k > 0 {
      Chains.WalkPrefix(PackSucc(ps), p, k - 1, k);
      Chains.WalkStep(PackSucc(ps), p, k - 1);
      WalkStaysInStore(ps, p, k - 1);
    }
  }
}
