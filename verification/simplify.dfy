/**
 * The relation lattice of Simplify.cpp and the atom-level cases of the type simplifier.
 *
 * `Relate` is the cheap subtype approximation over the type nodes of `Types`; it threads
 * the set of already-visited (left, right) pairs exactly as the source does. `Intersect`
 * and `Union` model the prelude of `intersect` and the non-union path of `union_`: they
 * run on an `Arena` (the store plus the next free id), because the source mints new union
 * and intersection types there. Operand shapes whose handling lives in helpers outside
 * this model (`intersectUnions`, `intersectNegations`, tables, type variables) give
 * `Delegated`.
 */
module Simplify {
  import opened Options
  import opened Types

  // ---------------------------------------------------------------------------------
  // The relation lattice (Simplify.cpp:141-259)

  datatype Relation = Disjoint | Coincident | Intersects | Subset | Superset

  /** `flip`: the relation seen from the other side. */
  function Flip(r: Relation): (f: Relation)
    ensures r == Subset <==> f == Superset
    ensures r == Superset <==> f == Subset
    ensures r != Subset && r != Superset ==> f == r
  {
    match r
    case Subset => Superset
    case Superset => Subset
    case _ => r
  }

  lemma FlipInvolution(r: Relation)
    ensures Flip(Flip(r)) == r
  {
  }

  /** `combine`: merges the relation of two parts; `Disjoint` is a right identity and it is idempotent. */
  function Combine(a: Relation, b: Relation): (r: Relation)
    ensures b == Disjoint ==> r == a
    ensures a == b ==> r == a
    ensures r == Disjoint ==> a == Disjoint && b == Disjoint
  {
    match a
    case Disjoint =>
      (match b
       case Disjoint => Disjoint
       case Coincident => Superset
       case Intersects => Intersects
       case Subset => Intersects
       case Superset => Intersects)
    case Coincident =>
      (match b
       case Disjoint => Coincident
       case Coincident => Coincident
       case Intersects => Superset
       case Subset => Coincident
       case Superset => Intersects)
    case Superset =>
      (match b
       case Disjoint => Superset
       case Coincident => Superset
       case Intersects => Intersects
       case Subset => Intersects
       case Superset => Superset)
    case Subset =>
      (match b
       case Disjoint => Subset
       case Coincident => Coincident
       case Intersects => Intersects
       case Subset => Subset
       case Superset => Intersects)
    case Intersects =>
      (match b
       case Disjoint => Intersects
       case Coincident => Superset
       case Intersects => Intersects
       case Subset => Intersects
       case Superset => Intersects)
  }

  /** `combine` is not symmetric. */
  lemma CombineNotSymmetric()
    ensures Combine(Disjoint, Coincident) == Superset
    ensures Combine(Coincident, Disjoint) == Coincident
    ensures exists a, b :: Combine(a, b) != Combine(b, a)
  {
    assert Combine(Disjoint, Coincident) != Combine(Coincident, Disjoint);
  }

  /** `invert`: given the relation of A and B, the relation of A and ~B. */
  function Invert(r: Relation): (i: Relation)
    ensures i == Subset <==> r == Disjoint
    ensures i == Disjoint <==> r == Coincident || r == Subset
    ensures i == Intersects <==> r == Intersects || r == Superset
  {
    match r
    case Disjoint => Subset
    case Coincident => Disjoint
    case Intersects => Intersects
    case Subset => Disjoint
    case Superset => Intersects
  }

  // ---------------------------------------------------------------------------------
  // relate (Simplify.cpp:325-660)

  type SeenSet = set<(TypeId, TypeId)>

  /** Every ordered pair of ids of the store: the bound on the seen set that makes `Relate` terminate. */
  function Pairs(s: Store): SeenSet {
    set a, b | a in s.Keys && b in s.Keys :: (a, b)
  }

  /**
   * `relate(left, right, seen)`: the relation and the seen set after the call. Both
   * sides are followed; identical types and pairs already seen are `Coincident`.
   */
  function Relate(s: Store, l: TypeId, r: TypeId, seen: SeenSet): (res: (Relation, SeenSet))
    requires WellFounded(s) && l in s && r in s
    ensures seen <= res.1
    ensures Follow(s, l) != Follow(s, r) ==> (Follow(s, l), Follow(s, r)) in res.1
    ensures Follow(s, l) == Follow(s, r) ==> res == (Coincident, seen)
    ensures (Follow(s, l), Follow(s, r)) in seen ==> res == (Coincident, seen)
    decreases Pairs(s) - seen, 0, 0
  {
    var left := Follow(s, l);
    var right := Follow(s, r);
    if left == right then (Coincident, seen)
    else if (left, right) in seen then (Coincident, seen)
    else
      var seen1 := seen + {(left, right)};
      assert (left, right) in Pairs(s);
      RelateFollowed(s, left, right, seen1)
  }

  /** The case analysis of `relate` once both sides are followed and the pair recorded. */
  function RelateFollowed(s: Store, left: TypeId, right: TypeId, seen: SeenSet): (res: (Relation, SeenSet))
    requires WellFounded(s) && left in s && right in s
    ensures seen <= res.1
    decreases Pairs(s) - seen, 2, 0
  {
    var a := s[left];
    var b := s[right];
    if a.UnknownType? then
      (if b.AnyType? then Subset
       else if b.UnknownType? then Coincident
       else if b.ErrorType? then Disjoint
       else Superset, seen)
    else if b.UnknownType? then FlipResult(Relate(s, right, left, seen))
    else if a.AnyType? then (if b.AnyType? then Coincident else Superset, seen)
    else if b.AnyType? then FlipResult(Relate(s, right, left, seen))
    else if a.ErrorType? then
      (if b.ErrorType? then Coincident else if b.AnyType? then Subset else Disjoint, seen)
    else if b.ErrorType? then FlipResult(Relate(s, right, left, seen))
    else if a.NeverType? then (if b.NeverType? then Coincident else Subset, seen)
    else if b.NeverType? then FlipResult(Relate(s, right, left, seen))
    else if a.IntersectionType? || b.IntersectionType? then (Intersects, seen)
    else if a.UnionType? then (Intersects, seen)
    else if b.UnionType? then RelateToUnion(s, left, UnionParts(s, right), 0, seen)
    else if b.NegationType? then
      var inner := Relate(s, left, b.ty, seen);
      (match inner.0
       case Coincident => Disjoint
       case Disjoint => if a.NegationType? then Intersects else Subset
       case Intersects => Intersects
       case Subset => Disjoint
       case Superset => Intersects, inner.1)
    else if a.NegationType? then FlipResult(Relate(s, right, left, seen))
    else if a.PrimitiveType? then (RelatePrimitive(a.kind, b), seen)
    else if a.SingletonType? then
      (if b.PrimitiveType? then FlipResult(Relate(s, right, left, seen))
       else if b.SingletonType? then (if a.variant == b.variant then Coincident else Disjoint, seen)
       else (Disjoint, seen))
    else if a.ExternType? then
      (if b.ExternType? then
         (if IsSubclass(s, left, right) then Subset
          else if IsSubclass(s, right, left) then Superset
          else Disjoint)
       else Disjoint, seen)
    else (Intersects, seen)
  }

  function FlipResult(res: (Relation, SeenSet)): (Relation, SeenSet) {
    (Flip(res.0), res.1)
  }

  /** A primitive on the left against a non-top, non-union, non-negated right side. */
  function RelatePrimitive(kind: PrimitiveKind, b: TypeNode): Relation {
    if b.PrimitiveType? then (if kind == b.kind then Coincident else Disjoint)
    else if b.SingletonType? then
      (if kind == String && b.variant.StringSingleton? then Superset
       else if kind == Boolean && b.variant.BooleanSingleton? then Superset
       else Disjoint)
    else Disjoint
  }

  /**
   * The loop over the parts of a union on the right (Simplify.cpp:433-444); `parts` is
   * what the union iterator yields.
   */
  function RelateToUnion(s: Store, left: TypeId, parts: seq<TypeId>, i: nat, seen: SeenSet): (res: (Relation, SeenSet))
    requires WellFounded(s) && left in s && LeafIds(s, parts) && i <= |parts|
    ensures seen <= res.1
    ensures res.0 == Subset || res.0 == Intersects
    decreases Pairs(s) - seen, 1, |parts| - i
  {
    if i == |parts| then (Intersects, seen)
    else
      var step := Relate(s, left, parts[i], seen);
      if step.0 == Subset || step.0 == Coincident then (Subset, step.1)
      else
        assert Pairs(s) - step.1 <= Pairs(s) - seen;
        RelateToUnion(s, left, parts, i + 1, step.1)
  }

  // ---------------------------------------------------------------------------------
  // A closed-form reference for the leaf cases of relate

  /** A followed type that `relate` treats without looking inside. */
  predicate Leaf(n: TypeNode) {
    !n.BoundType? && !n.UnionType? && !n.IntersectionType? && !n.NegationType?
  }

  predicate SameTop(a: TypeNode, b: TypeNode) {
    (a.UnknownType? && b.UnknownType?) || (a.AnyType? && b.AnyType?)
    || (a.ErrorType? && b.ErrorType?) || (a.NeverType? && b.NeverType?)
  }

  /**
   * The relation of two leaf types, written once per unordered pair of kinds: tops and
   * bottoms first, then primitives, singletons and extern classes.
   */
  function LeafRelation(s: Store, left: TypeId, right: TypeId): Relation
    requires WellFounded(s) && left in s && right in s
  {
    var a := s[left];
    var b := s[right];
    if left == right || SameTop(a, b) then Coincident
    else if a.UnknownType? then (if b.AnyType? then Subset else if b.ErrorType? then Disjoint else Superset)
    else if b.UnknownType? then (if a.AnyType? then Superset else if a.ErrorType? then Disjoint else Subset)
    else if a.AnyType? then Superset
    else if b.AnyType? then Subset
    else if a.ErrorType? || b.ErrorType? then Disjoint
    else if a.NeverType? then Subset
    else if b.NeverType? then Superset
    else if a.PrimitiveType? then RelatePrimitive(a.kind, b)
    else if b.PrimitiveType? then Flip(RelatePrimitive(b.kind, a))
    else if a.SingletonType? && b.SingletonType? then (if a.variant == b.variant then Coincident else Disjoint)
    else if a.ExternType? && b.ExternType? then
      (if IsSubclass(s, left, right) then Subset else if IsSubclass(s, right, left) then Superset else Disjoint)
    else Disjoint
  }

  /** The reference is antisymmetric: swapping the sides flips the relation. */
  lemma LeafRelationAntisymmetric(s: Store, left: TypeId, right: TypeId)
    requires WellFounded(s) && left in s && right in s && Leaf(s[left]) && Leaf(s[right])
    ensures LeafRelation(s, left, right) == Flip(LeafRelation(s, right, left))
  {
    var a := s[left];
    var b := s[right];
    if a.ExternType? && b.ExternType? && left != right && IsSubclass(s, left, right) && IsSubclass(s, right, left) {
      IsSubclassAntisymmetric(s, left, right);
    }
  }

  /** Whether `relate` answers a leaf pair by asking the swapped pair and flipping the answer. */
  predicate Flips(a: TypeNode, b: TypeNode) {
    || (b.UnknownType? && !a.UnknownType?)
    || (b.AnyType? && !a.UnknownType? && !a.AnyType?)
    || (b.ErrorType? && !a.UnknownType? && !a.AnyType? && !a.ErrorType?)
    || (b.NeverType? && !a.UnknownType? && !a.AnyType? && !a.ErrorType? && !a.NeverType?)
    || (a.SingletonType? && b.PrimitiveType?)
  }

  lemma RelateLeavesDirect(s: Store, left: TypeId, right: TypeId, seen: SeenSet)
    requires WellFounded(s) && left in s && right in s && Leaf(s[left]) && Leaf(s[right])
    requires !Flips(s[left], s[right]) && (left, right) !in seen
    ensures Relate(s, left, right, seen).0 == LeafRelation(s, left, right)
    ensures Relate(s, left, right, seen).1 <= seen + {(left, right)}
  {
    assert Follow(s, left) == left && Follow(s, right) == right;
  }

  /**
   * On leaves whose pair (in either order) has not been seen, `relate` computes the
   * reference relation, whatever else the seen set holds.
   */
  lemma RelateLeaves(s: Store, l: TypeId, r: TypeId, seen: SeenSet)
    requires WellFounded(s) && l in s && r in s
    requires Leaf(s[Follow(s, l)]) && Leaf(s[Follow(s, r)])
    requires (Follow(s, l), Follow(s, r)) !in seen && (Follow(s, r), Follow(s, l)) !in seen
    ensures Relate(s, l, r, seen).0 == LeafRelation(s, Follow(s, l), Follow(s, r))
    ensures Relate(s, l, r, seen).1 <= seen + {(Follow(s, l), Follow(s, r)), (Follow(s, r), Follow(s, l))}
  {
    var left := Follow(s, l);
    var right := Follow(s, r);
    if left != right {
      var seen1 := seen + {(left, right)};
      if Flips(s[left], s[right]) {
        RelateLeavesDirect(s, right, left, seen1);
        LeafRelationAntisymmetric(s, left, right);
      } else {
        RelateLeavesDirect(s, left, right, seen);
      }
    }
  }

  /** Swapping the operands of `relate` flips the relation, for leaf types. */
  lemma RelateAntisymmetric(s: Store, l: TypeId, r: TypeId)
    requires WellFounded(s) && l in s && r in s && Leaf(s[Follow(s, l)]) && Leaf(s[Follow(s, r)])
    ensures Relate(s, l, r, {}).0 == Flip(Relate(s, r, l, {}).0)
  {
    RelateLeaves(s, l, r, {});
    RelateLeaves(s, r, l, {});
    LeafRelationAntisymmetric(s, Follow(s, l), Follow(s, r));
  }

  /** The top and bottom rows of the relation table, in both operand orders. */
  lemma RelateTops(s: Store, l: TypeId, r: TypeId)
    requires WellFounded(s) && l in s && r in s && Follow(s, l) != Follow(s, r)
    requires Leaf(s[Follow(s, l)]) && Leaf(s[Follow(s, r)])
    ensures var a, b, rel := s[Follow(s, l)], s[Follow(s, r)], Relate(s, l, r, {}).0;
      && (a.UnknownType? && b.AnyType? ==> rel == Subset)
      && (a.UnknownType? && !b.AnyType? && !b.ErrorType? && !b.UnknownType? ==> rel == Superset)
      && (b.UnknownType? && !a.AnyType? && !a.ErrorType? && !a.UnknownType? ==> rel == Subset)
      && (a.NeverType? && !b.NeverType? && !b.ErrorType? ==> rel == Subset)
      && (b.NeverType? && !a.NeverType? && !a.ErrorType? ==> rel == Superset)
      && (a.ErrorType? && !b.ErrorType? && !b.AnyType? ==> rel == Disjoint)
      && (b.ErrorType? && !a.ErrorType? && !a.AnyType? ==> rel == Disjoint)
  {
    RelateLeaves(s, l, r, {});
  }

  /** Primitives and singletons: same kind or same value is Coincident, a singleton of the kind is Superset. */
  lemma RelateAtoms(s: Store, l: TypeId, r: TypeId)
    requires WellFounded(s) && l in s && r in s && Follow(s, l) != Follow(s, r)
    ensures var a, b, rel := s[Follow(s, l)], s[Follow(s, r)], Relate(s, l, r, {}).0;
      && (a.PrimitiveType? && b.PrimitiveType? ==> (rel == Coincident <==> a.kind == b.kind) && (rel == Coincident || rel == Disjoint))
      && (a.PrimitiveType? && a.kind == String && b.SingletonType? && b.variant.StringSingleton? ==> rel == Superset)
      && (a.PrimitiveType? && a.kind == Boolean && b.SingletonType? && b.variant.BooleanSingleton? ==> rel == Superset)
      && (a.SingletonType? && b.PrimitiveType? && b.kind == String && a.variant.StringSingleton? ==> rel == Subset)
      && (a.SingletonType? && b.SingletonType? ==> (rel == Coincident <==> a.variant == b.variant) && (rel == Coincident || rel == Disjoint))
  {
    var a, b := s[Follow(s, l)], s[Follow(s, r)];
    if (a.PrimitiveType? || a.SingletonType?) && (b.PrimitiveType? || b.SingletonType?) {
      RelateLeaves(s, l, r, {});
    }
  }

  /** Extern classes: subclass is Subset, superclass is Superset, unrelated classes are Disjoint. */
  lemma RelateExtern(s: Store, l: TypeId, r: TypeId)
    requires WellFounded(s) && l in s && r in s && s[l].ExternType? && s[r].ExternType? && l != r
    ensures IsSubclass(s, l, r) ==> Relate(s, l, r, {}).0 == Subset
    ensures IsSubclass(s, r, l) ==> Relate(s, l, r, {}).0 == Superset
    ensures !IsSubclass(s, l, r) && !IsSubclass(s, r, l) ==> Relate(s, l, r, {}).0 == Disjoint
  {
    RelateLeaves(s, l, r, {});
    if IsSubclass(s, r, l) && IsSubclass(s, l, r) {
      IsSubclassAntisymmetric(s, l, r);
    }
  }

  /**
   * A type relates as Subset to every union that has it among its parts, whatever parts
   * come before it.
   */
  lemma {:induction false} RelateToUnionMember(s: Store, left: TypeId, parts: seq<TypeId>, i: nat, j: nat, seen: SeenSet)
    requires WellFounded(s) && left in s && LeafIds(s, parts)
    requires i <= j < |parts| && Follow(s, parts[j]) == Follow(s, left)
    ensures RelateToUnion(s, left, parts, i, seen).0 == Subset
    decreases j - i
  {
    var step := Relate(s, left, parts[i], seen);
    if !(step.0 == Subset || step.0 == Coincident) {
      RelateToUnionMember(s, left, parts, i + 1, j, step.1);
    }
  }

  /** A non-top leaf is a subset of every union that has it among its leaves, at any depth. */
  lemma RelateUnionMember(s: Store, l: TypeId, r: TypeId, x: TypeId)
    requires WellFounded(s) && l in s && r in s && s[Follow(s, r)].UnionType?
    requires x in OptionLeaves(s, Follow(s, r), s[Follow(s, r)].options, 0) && Follow(s, x) == Follow(s, l)
    requires var a := s[Follow(s, l)]; Leaf(a) && !a.UnknownType? && !a.AnyType? && !a.ErrorType? && !a.NeverType?
    ensures Relate(s, l, r, {}).0 == Subset
  {
    var left, right := Follow(s, l), Follow(s, r);
    FollowFixed(s, l);
    var parts := UnionParts(s, right);
    UnionPartsAreLeaves(s, right);
    assert x in Elems(parts);
    var j :| 0 <= j < |parts| && parts[j] == x;
    var none: SeenSet := {};
    var seen1 := none + {(left, right)};
    assert Relate(s, l, r, none) == RelateFollowed(s, left, right, seen1);
    assert RelateFollowed(s, left, right, seen1) == RelateToUnion(s, left, parts, 0, seen1);
    RelateToUnionMember(s, left, parts, 0, j, seen1);
  }

  /** Every part of `parts[i..]` follows to a leaf. */
  predicate LeafParts(s: Store, parts: seq<TypeId>, i: nat)
    requires WellFounded(s) && LeafIds(s, parts)
  {
    forall k :: i <= k < |parts| ==> Leaf(s[Follow(s, parts[k])])
  }

  /**
   * The loop's verdict on leaf parts: Subset exactly when some part contains `left` by the
   * reference table, was related to `left` before, or repeats an earlier part (whose pair
   * the seen set now holds, so the repeat counts as Coincident).
   */
  predicate UnionVerdict(s: Store, left: TypeId, parts: seq<TypeId>, i: nat, seen: SeenSet)
    requires WellFounded(s) && left in s && LeafIds(s, parts)
  {
    exists k :: i <= k < |parts| &&
      (|| LeafRelation(s, left, Follow(s, parts[k])) in {Subset, Coincident}
       || (left, Follow(s, parts[k])) in seen
       || exists m :: i <= m < k && Follow(s, parts[m]) == Follow(s, parts[k]))
  }

  lemma {:induction false} RelateToUnionLeaves(s: Store, left: TypeId, parts: seq<TypeId>, i: nat, seen: SeenSet)
    requires WellFounded(s) && left in s && Leaf(s[left]) && LeafIds(s, parts) && i <= |parts|
    requires LeafParts(s, parts, i)
    requires forall k :: i <= k < |parts| && (Follow(s, parts[k]), left) in seen ==> (left, Follow(s, parts[k])) in seen
    ensures RelateToUnion(s, left, parts, i, seen).0 == Subset <==> UnionVerdict(s, left, parts, i, seen)
    decreases |parts| - i
  {
    if i < |parts| {
      var f := Follow(s, parts[i]);
      assert Follow(s, left) == left;
      var step := Relate(s, left, parts[i], seen);
      if (left, f) in seen || left == f {
        assert LeafRelation(s, left, f) == Coincident || (left, f) in seen;
      } else {
        RelateLeaves(s, left, parts[i], seen);
        if !(step.0 == Subset || step.0 == Coincident) {
          RelateToUnionLeaves(s, left, parts, i + 1, step.1);
          VerdictStep(s, left, parts, i, seen, step.1);
        }
      }
    }
  }

  /**
   * Relating a part that neither contains `left` nor was seen records the pair, and the
   * verdict on the remaining parts with the grown seen set is the verdict from that part on.
   */
  lemma VerdictStep(s: Store, left: TypeId, parts: seq<TypeId>, i: nat, seen: SeenSet, seen': SeenSet)
    requires WellFounded(s) && left in s && LeafIds(s, parts) && i < |parts|
    requires (left, Follow(s, parts[i])) !in seen && left != Follow(s, parts[i])
    requires LeafRelation(s, left, Follow(s, parts[i])) !in {Subset, Coincident}
    requires seen <= seen' && (left, Follow(s, parts[i])) in seen'
    requires seen' <= seen + {(left, Follow(s, parts[i])), (Follow(s, parts[i]), left)}
    ensures UnionVerdict(s, left, parts, i, seen) <==> UnionVerdict(s, left, parts, i + 1, seen')
  {
    if UnionVerdict(s, left, parts, i, seen) {
      VerdictForward(s, left, parts, i, seen, seen');
    }
    if UnionVerdict(s, left, parts, i + 1, seen') {
      VerdictBackward(s, left, parts, i, seen, seen');
    }
  }

  lemma VerdictForward(s: Store, left: TypeId, parts: seq<TypeId>, i: nat, seen: SeenSet, seen': SeenSet)
    requires WellFounded(s) && left in s && LeafIds(s, parts) && i < |parts|
    requires (left, Follow(s, parts[i])) !in seen
    requires LeafRelation(s, left, Follow(s, parts[i])) !in {Subset, Coincident}
    requires seen <= seen' && (left, Follow(s, parts[i])) in seen'
    requires UnionVerdict(s, left, parts, i, seen)
    ensures UnionVerdict(s, left, parts, i + 1, seen')
  {
    var k :| i <= k < |parts| &&
      (|| LeafRelation(s, left, Follow(s, parts[k])) in {Subset, Coincident}
       || (left, Follow(s, parts[k])) in seen
       || exists m :: i <= m < k && Follow(s, parts[m]) == Follow(s, parts[k]));
    assert k > i;
    if exists m :: i <= m < k && Follow(s, parts[m]) == Follow(s, parts[k]) {
      var m :| i <= m < k && Follow(s, parts[m]) == Follow(s, parts[k]);
      if m == i {
        assert (left, Follow(s, parts[k])) in seen';
      }
    }
    assert i + 1 <= k < |parts| &&
      (|| LeafRelation(s, left, Follow(s, parts[k])) in {Subset, Coincident}
       || (left, Follow(s, parts[k])) in seen'
       || exists m :: i + 1 <= m < k && Follow(s, parts[m]) == Follow(s, parts[k]));
  }

  lemma VerdictBackward(s: Store, left: TypeId, parts: seq<TypeId>, i: nat, seen: SeenSet, seen': SeenSet)
    requires WellFounded(s) && left in s && LeafIds(s, parts) && i < |parts|
    requires left != Follow(s, parts[i])
    requires seen' <= seen + {(left, Follow(s, parts[i])), (Follow(s, parts[i]), left)}
    requires UnionVerdict(s, left, parts, i + 1, seen')
    ensures UnionVerdict(s, left, parts, i, seen)
  {
    var k :| i + 1 <= k < |parts| &&
      (|| LeafRelation(s, left, Follow(s, parts[k])) in {Subset, Coincident}
       || (left, Follow(s, parts[k])) in seen'
       || exists m :: i + 1 <= m < k && Follow(s, parts[m]) == Follow(s, parts[k]));
    if (left, Follow(s, parts[k])) in seen' && (left, Follow(s, parts[k])) !in seen {
      assert Follow(s, parts[k]) == Follow(s, parts[i]);
    }
    assert i <= k < |parts| &&
      (|| LeafRelation(s, left, Follow(s, parts[k])) in {Subset, Coincident}
       || (left, Follow(s, parts[k])) in seen
       || exists m :: i <= m < k && Follow(s, parts[m]) == Follow(s, parts[k]));
  }

  /**
   * A non-top leaf against a union whose parts all follow to leaves: Subset exactly when
   * some part contains it by the reference table or some leaf is repeated, Intersects
   * otherwise.
   */
  lemma RelateUnionLeaves(s: Store, l: TypeId, r: TypeId)
    requires WellFounded(s) && l in s && r in s && s[Follow(s, r)].UnionType?
    requires var a := s[Follow(s, l)]; Leaf(a) && !a.UnknownType? && !a.AnyType? && !a.ErrorType? && !a.NeverType?
    requires LeafParts(s, UnionParts(s, Follow(s, r)), 0)
    ensures var parts := UnionParts(s, Follow(s, r));
      Relate(s, l, r, {}).0 ==
        if exists k :: 0 <= k < |parts| &&
             (|| LeafRelation(s, Follow(s, l), Follow(s, parts[k])) in {Subset, Coincident}
              || exists m :: 0 <= m < k && Follow(s, parts[m]) == Follow(s, parts[k]))
        then Subset else Intersects
  {
    var left, right := Follow(s, l), Follow(s, r);
    FollowFixed(s, l);
    var parts := UnionParts(s, right);
    var none: SeenSet := {};
    var seen1 := none + {(left, right)};
    assert Relate(s, l, r, none) == RelateFollowed(s, left, right, seen1);
    assert RelateFollowed(s, left, right, seen1) == RelateToUnion(s, left, parts, 0, seen1);
    RelateToUnionLeaves(s, left, parts, 0, seen1);
    assert forall k :: 0 <= k < |parts| ==> (left, Follow(s, parts[k])) !in seen1;
  }

  /** `number`, `string`, `nil`, `string | nil`, `(string | nil) | (string | nil)` and `string | string`. */
  function RepeatedStore(): Store {
    map[0 := PrimitiveType(Number), 1 := PrimitiveType(String), 2 := PrimitiveType(NilType),
        3 := UnionType([1, 2]), 4 := UnionType([3, 3]), 5 := UnionType([1, 1])]
  }

  lemma RepeatedStoreParts()
    ensures WellFounded(RepeatedStore())
    ensures UnionParts(RepeatedStore(), 3) == [1, 2]
    ensures UnionParts(RepeatedStore(), 4) == [1, 2]
    ensures UnionParts(RepeatedStore(), 5) == [1, 1]
  {
    StringOrNilParts();
    NestedStringOrNilParts();
    StringOrStringParts();
  }

  lemma StringOrNilParts()
    ensures WellFounded(RepeatedStore()) && UnionParts(RepeatedStore(), 3) == [1, 2]
  {
    var s := RepeatedStore();
    assert WellFounded(s);
    assert Follow(s, 1) == 1 && Follow(s, 2) == 2;
    assert LeafIds(s, [1]) && LeafIds(s, [1, 2]);
    assert [] + [1] == [1] && [1] + [2] == [1, 2];
    var one := IterateOptions(s, 3, [1, 2], 1, {3}, [1]);
    assert one == IterateOptions(s, 3, [1, 2], 2, {3}, [1, 2]);
    assert IterateOptions(s, 3, [1, 2], 0, {3}, []) == one;
  }

  lemma NestedStringOrNilParts()
    ensures WellFounded(RepeatedStore()) && UnionParts(RepeatedStore(), 4) == [1, 2]
  {
    var s := RepeatedStore();
    assert WellFounded(s);
    assert Follow(s, 1) == 1 && Follow(s, 2) == 2 && Follow(s, 3) == 3;
    assert LeafIds(s, [1]) && LeafIds(s, [1, 2]);
    assert [] + [1] == [1] && [1] + [2] == [1, 2];
    assert {4} + {3} == {4, 3} && s[3].options == [1, 2];
    var nested := IterateOptions(s, 3, [1, 2], 0, {4, 3}, []);
    assert nested == IterateOptions(s, 3, [1, 2], 1, {4, 3}, [1]);
    assert nested == ([1, 2], {4, 3});
    assert IterateOptions(s, 4, [3, 3], 1, {4, 3}, [1, 2]) == IterateOptions(s, 4, [3, 3], 2, {4, 3}, [1, 2]);
    assert IterateOptions(s, 4, [3, 3], 0, {4}, []) == IterateOptions(s, 4, [3, 3], 1, {4, 3}, [1, 2]);
  }

  lemma StringOrStringParts()
    ensures WellFounded(RepeatedStore()) && UnionParts(RepeatedStore(), 5) == [1, 1]
  {
    var s := RepeatedStore();
    assert WellFounded(s);
    assert Follow(s, 1) == 1;
    assert LeafIds(s, [1]) && LeafIds(s, [1, 1]);
    assert [] + [1] == [1] && [1] + [1] == [1, 1];
    assert IterateOptions(s, 5, [1, 1], 0, {5}, []) == IterateOptions(s, 5, [1, 1], 1, {5}, [1]);
    assert IterateOptions(s, 5, [1, 1], 1, {5}, [1]) == IterateOptions(s, 5, [1, 1], 2, {5}, [1, 1]);
  }

  /**
   * `number` against `(string | nil) | (string | nil)`: the iterator walks the repeated
   * union once, so the answer is Intersects as for `string | nil` itself. A repeated leaf,
   * as in `string | string`, is related twice and the second visit counts as Coincident.
   */
  lemma RelateRepeatedParts()
    ensures Relate(RepeatedStore(), 0, 4, {}).0 == Intersects
    ensures Relate(RepeatedStore(), 0, 3, {}).0 == Intersects
    ensures Relate(RepeatedStore(), 0, 5, {}).0 == Subset
  {
    RelateStringOrNil(3);
    RelateStringOrNil(4);
    RelateRepeatedLeaf();
  }

  lemma RelateStringOrNil(u: TypeId)
    requires u == 3 || u == 4
    ensures Relate(RepeatedStore(), 0, u, {}).0 == Intersects
  {
    var s := RepeatedStore();
    RepeatedStoreParts();
    RepeatedStoreLeaves();
    assert UnionParts(s, u) == [1, 2];
    RelateUnionNoneContains(s, 0, u);
  }

  lemma RelateRepeatedLeaf()
    ensures Relate(RepeatedStore(), 0, 5, {}).0 == Subset
  {
    var s := RepeatedStore();
    RepeatedStoreParts();
    RepeatedStoreLeaves();
    RelateUnionRepeat(s, 0, 5, 0, 1);
  }

  /** The leaves of the store and how `number` relates to them. */
  lemma RepeatedStoreLeaves()
    ensures var s := RepeatedStore();
      && WellFounded(s)
      && Follow(s, 0) == 0 && Follow(s, 1) == 1 && Follow(s, 2) == 2
      && Follow(s, 3) == 3 && Follow(s, 4) == 4 && Follow(s, 5) == 5
      && s[3].UnionType? && s[4].UnionType? && s[5].UnionType?
      && Leaf(s[0]) && Leaf(s[1]) && Leaf(s[2]) && s[0] == PrimitiveType(Number)
      && LeafRelation(s, 0, 1) == Disjoint && LeafRelation(s, 0, 2) == Disjoint
  {
    RepeatedStoreParts();
  }

  /** A non-top leaf against a union none of whose distinct leaves contains it is Intersects. */
  lemma RelateUnionNoneContains(s: Store, l: TypeId, r: TypeId)
    requires WellFounded(s) && l in s && r in s && s[Follow(s, r)].UnionType?
    requires var a := s[Follow(s, l)]; Leaf(a) && !a.UnknownType? && !a.AnyType? && !a.ErrorType? && !a.NeverType?
    requires LeafParts(s, UnionParts(s, Follow(s, r)), 0)
    requires var parts := UnionParts(s, Follow(s, r));
      forall k :: 0 <= k < |parts| ==> LeafRelation(s, Follow(s, l), Follow(s, parts[k])) !in {Subset, Coincident}
    requires var parts := UnionParts(s, Follow(s, r));
      forall k, m :: 0 <= m < k < |parts| ==> Follow(s, parts[m]) != Follow(s, parts[k])
    ensures Relate(s, l, r, {}).0 == Intersects
  {
    RelateUnionLeaves(s, l, r);
  }

  /** A non-top leaf against a union that visits some leaf twice is Subset. */
  lemma RelateUnionRepeat(s: Store, l: TypeId, r: TypeId, m: nat, k: nat)
    requires WellFounded(s) && l in s && r in s && s[Follow(s, r)].UnionType?
    requires var a := s[Follow(s, l)]; Leaf(a) && !a.UnknownType? && !a.AnyType? && !a.ErrorType? && !a.NeverType?
    requires LeafParts(s, UnionParts(s, Follow(s, r)), 0)
    requires var parts := UnionParts(s, Follow(s, r));
      m < k < |parts| && Follow(s, parts[m]) == Follow(s, parts[k])
    ensures Relate(s, l, r, {}).0 == Subset
  {
    RelateUnionLeaves(s, l, r);
  }

  /** Against a negated leaf, `relate` is `invert` of the relation to the leaf itself. */
  lemma RelateNegation(s: Store, l: TypeId, r: TypeId)
    requires WellFounded(s) && l in s && r in s
    requires s[Follow(s, r)].NegationType?
    requires var a := s[Follow(s, l)];
      Leaf(a) && !a.UnknownType? && !a.AnyType? && !a.ErrorType? && !a.NeverType?
    requires Leaf(s[Follow(s, s[Follow(s, r)].ty)])
    ensures Relate(s, l, r, {}).0 == Invert(Relate(s, l, s[Follow(s, r)].ty, {}).0)
  {
    var left, right := Follow(s, l), Follow(s, r);
    var x := s[right].ty;
    FollowFixed(s, l);
    assert Follow(s, x) != right;
    assert left != right;
    var none: SeenSet := {};
    var seen1 := none + {(left, right)};
    assert Relate(s, l, r, none) == RelateFollowed(s, left, right, seen1);
    RelateLeaves(s, left, x, seen1);
    RelateLeaves(s, left, x, {});
    RelateLeaves(s, l, x, {});
  }

  // ---------------------------------------------------------------------------------
  // intersectOne and subtractOne (Simplify.cpp:1689-1727)

  /** The builtin singleton types the simplifier returns. */
  datatype Builtins = Builtins(neverType: TypeId, unknownType: TypeId, errorType: TypeId,
                               booleanType: TypeId, trueType: TypeId, falseType: TypeId)

  predicate ValidBuiltins(s: Store, b: Builtins) {
    && b.neverType in s && s[b.neverType] == NeverType
    && b.unknownType in s && s[b.unknownType] == UnknownType
    && b.errorType in s && s[b.errorType] == ErrorType
    && b.booleanType in s && s[b.booleanType] == PrimitiveType(Boolean)
    && b.trueType in s && s[b.trueType] == SingletonType(BooleanSingleton(true))
    && b.falseType in s && s[b.falseType] == SingletonType(BooleanSingleton(false))
  }

  /** `intersectOne(target, discriminant)`: the intersection when the relation decides it. */
  function IntersectOne(s: Store, b: Builtins, target: TypeId, discriminant: TypeId): (r: Option<TypeId>)
    requires WellFounded(s) && target in s && discriminant in s
  {
    match Relate(s, target, discriminant, {}).0
    case Disjoint => Some(b.neverType)
    case Subset => Some(target)
    case Coincident => Some(target)
    case Superset => Some(discriminant)
    case Intersects => None
  }

  /** `subtractOne(target, discriminant)`: the difference when the relation decides it. */
  function SubtractOne(s: Store, b: Builtins, target: TypeId, discriminant: TypeId): (r: Option<TypeId>)
    requires WellFounded(s) && target in s && discriminant in s
  {
    var t := Follow(s, target);
    var d := Follow(s, discriminant);
    if s[d].NegationType? then IntersectOne(s, b, t, s[d].ty)
    else
      match Relate(s, t, d, {}).0
      case Disjoint => Some(t)
      case Subset => Some(b.neverType)
      case Coincident => Some(b.neverType)
      case _ => None
  }

  /** `relate` follows both sides first, so following them beforehand changes nothing. */
  lemma RelateFollows(s: Store, l: TypeId, r: TypeId, seen: SeenSet)
    requires WellFounded(s) && l in s && r in s
    ensures Relate(s, Follow(s, l), Follow(s, r), seen) == Relate(s, l, r, seen)
  {
    FollowFixed(s, l);
    FollowFixed(s, r);
  }

  /**
   * The two splits are complementary: where the intersection is empty the difference is
   * the whole target, where the target lies inside the discriminant the difference is
   * empty, and where the intersection is undecided so is the difference.
   */
  lemma SplitComplementary(s: Store, b: Builtins, target: TypeId, discriminant: TypeId)
    requires WellFounded(s) && target in s && discriminant in s
    requires !s[Follow(s, discriminant)].NegationType?
    ensures IntersectOne(s, b, target, discriminant) == None ==> SubtractOne(s, b, target, discriminant) == None
    ensures SubtractOne(s, b, target, discriminant) == None ==>
      IntersectOne(s, b, target, discriminant) in {None, Some(discriminant)}
    ensures Relate(s, target, discriminant, {}).0 == Disjoint ==>
      IntersectOne(s, b, target, discriminant) == Some(b.neverType) && SubtractOne(s, b, target, discriminant) == Some(Follow(s, target))
    ensures Relate(s, target, discriminant, {}).0 in {Subset, Coincident} ==>
      IntersectOne(s, b, target, discriminant) == Some(target) && SubtractOne(s, b, target, discriminant) == Some(b.neverType)
  {
    RelateFollows(s, target, discriminant, {});
  }

  /** On a negated discriminant, subtracting is intersecting with the negated type. */
  lemma SubtractNegation(s: Store, b: Builtins, target: TypeId, discriminant: TypeId)
    requires WellFounded(s) && target in s && discriminant in s
    requires s[Follow(s, discriminant)].NegationType?
    ensures SubtractOne(s, b, target, discriminant) == IntersectOne(s, b, Follow(s, target), s[Follow(s, discriminant)].ty)
  {
  }

  /** A type split against itself: the intersection is the type, the difference is empty. */
  lemma SplitSelf(s: Store, b: Builtins, target: TypeId, discriminant: TypeId)
    requires WellFounded(s) && target in s && discriminant in s
    requires Follow(s, target) == Follow(s, discriminant) && !s[Follow(s, discriminant)].NegationType?
    ensures IntersectOne(s, b, target, discriminant) == Some(target)
    ensures SubtractOne(s, b, target, discriminant) == Some(b.neverType)
  {
  }

  // ---------------------------------------------------------------------------------
  // The arena and simplify (Simplify.cpp:1602-1646)

  /** The types of the store, and the next free id that `addType` hands out. */
  datatype Arena = Arena(types: Store, next: TypeId)

  ghost predicate ValidArena(a: Arena, b: Builtins) {
    && WellFounded(a.types)
    && (forall k :: k in a.types ==> k < a.next)
    && ValidBuiltins(a.types, b)
  }

  /** `a2` keeps every type of `a` unchanged. */
  ghost predicate Extends(a: Arena, a2: Arena) {
    forall k :: k in a.types ==> k in a2.types && a2.types[k] == a.types[k]
  }

  /** `arena->addType(n)`: `n` under a fresh id, every existing type unchanged. */
  function AddType(a: Arena, b: Builtins, n: TypeNode): (res: (Arena, TypeId))
    requires ValidArena(a, b) && EdgesBelow(a.types, a.next, n)
    ensures ValidArena(res.0, b) && Extends(a, res.0)
    ensures res.1 !in a.types && res.1 in res.0.types && res.0.types[res.1] == n
    ensures res.0.types.Keys == a.types.Keys + {res.1}
  {
    var types := a.types[a.next := n];
    assert forall id :: id in a.types ==> EdgesBelow(types, id, types[id]) by {
      forall id | id in a.types ensures EdgesBelow(types, id, types[id]) {
        EdgesBelowGrow(a.types, types, id, a.types[id]);
      }
    }
    EdgesBelowGrow(a.types, types, a.next, n);
    (Arena(types, a.next + 1), a.next)
  }

  lemma EdgesBelowGrow(s: Store, s2: Store, id: TypeId, n: TypeNode)
    requires s.Keys <= s2.Keys && EdgesBelow(s, id, n)
    ensures EdgesBelow(s2, id, n)
  {
  }

  /**
   * `simplify(ty)` on the types of this model: a negation of a top or bottom type
   * becomes its complement, a double negation is dropped, everything else is followed.
   */
  function SimplifyType(a: Arena, b: Builtins, ty: TypeId): (res: (Arena, TypeId))
    requires ValidArena(a, b) && ty in a.types
    ensures ValidArena(res.0, b) && Extends(a, res.0) && res.1 in res.0.types
    ensures !res.0.types[res.1].BoundType?
    ensures !a.types[Follow(a.types, ty)].NegationType? ==> res == (a, Follow(a.types, ty))
    decreases ty
  {
    var s := a.types;
    var t := Follow(s, ty);
    if s[t].NegationType? then
      var negated := Follow(s, s[t].ty);
      if s[negated].AnyType? then AddType(a, b, UnionType([b.neverType, b.errorType]))
      else if s[negated].UnknownType? then (a, b.neverType)
      else if s[negated].NeverType? then (a, b.unknownType)
      else if s[negated].NegationType? then SimplifyType(a, b, s[negated].ty)
      else (a, t)
    else (a, t)
  }

  /** `simplify` never leaves a double negation or a negated top or bottom behind. */
  lemma {:induction false} SimplifyNormal(a: Arena, b: Builtins, ty: TypeId)
    requires ValidArena(a, b) && ty in a.types
    ensures var res := SimplifyType(a, b, ty);
      var s2 := res.0.types;
      s2[res.1].NegationType? ==>
        var inner := s2[Follow(s2, s2[res.1].ty)];
        !inner.NegationType? && !inner.AnyType? && !inner.UnknownType? && !inner.NeverType?
    decreases ty
  {
    var s := a.types;
    var t := Follow(s, ty);
    if s[t].NegationType? {
      var negated := Follow(s, s[t].ty);
      if s[negated].NegationType? && !s[negated].AnyType? {
        SimplifyNormal(a, b, s[negated].ty);
      }
    }
  }

  // ---------------------------------------------------------------------------------
  // intersect and union_ (Simplify.cpp:1414-1425, 1428-1518, 1520-1600)

  /** What a simplifier step produced: a type, or a case handled by a helper outside this model. */
  datatype Outcome = Done(ty: TypeId) | Delegated

  /**
   * `basicIntersect` (Simplify.cpp:1259-1311, 1404-1423) on operands that are not tables:
   * the top and bottom cases, where `any` against anything but an error mints the union
   * of the other side and the error type, the boolean rules, then the fallback on the
   * relation. `None` is the source's "no simpler form".
   */
  function BasicIntersect(a: Arena, b: Builtins, l: TypeId, r: TypeId): (res: (Arena, Option<TypeId>))
    requires ValidArena(a, b) && l in a.types && r in a.types
    ensures ValidArena(res.0, b) && Extends(a, res.0)
    ensures res.1.Some? ==> res.1.value in res.0.types
    ensures res.0 != a ==> res.1 == Some(a.next)
  {
    var s := a.types;
    var left, right := Follow(s, l), Follow(s, r);
    var ln, rn := s[left], s[right];
    if ln.AnyType? && rn.ErrorType? then (a, Some(right))
    else if rn.AnyType? && ln.ErrorType? then (a, Some(left))
    else if ln.AnyType? then
      var added := AddType(a, b, UnionType([right, b.errorType]));
      (added.0, Some(added.1))
    else if rn.AnyType? then
      var added := AddType(a, b, UnionType([left, b.errorType]));
      (added.0, Some(added.1))
    else (a, BasicIntersectRest(s, b, left, right))
  }

  /** The cases of `basicIntersect` after `any`: both operands followed and neither is `any`. */
  function BasicIntersectRest(s: Store, b: Builtins, left: TypeId, right: TypeId): (res: Option<TypeId>)
    requires WellFounded(s) && ValidBuiltins(s, b) && left in s && right in s
    ensures res.Some? ==> res.value in s
  {
    var ln, rn := s[left], s[right];
    if ln.UnknownType? then Some(right)
    else if rn.UnknownType? then Some(left)
    else if ln.NeverType? then Some(left)
    else if rn.NeverType? then Some(right)
    else if ln == PrimitiveType(Boolean) && rn.SingletonType? && rn.variant.BooleanSingleton? then Some(right)
    else if ln == PrimitiveType(Boolean) && NegatedBooleanSingleton(s, rn) then Some(Complement(s, b, rn))
    else if rn == PrimitiveType(Boolean) && ln.SingletonType? && ln.variant.BooleanSingleton? then Some(left)
    else if rn == PrimitiveType(Boolean) && NegatedBooleanSingleton(s, ln) then Some(Complement(s, b, ln))
    else
      var relation := Relate(s, left, right, {}).0;
      if left == right || relation == Coincident then Some(left)
      else if relation == Disjoint then Some(b.neverType)
      else if relation == Subset then Some(left)
      else if relation == Superset then Some(right)
      else None
  }

  /** `~true` or `~false`. */
  predicate NegatedBooleanSingleton(s: Store, n: TypeNode)
    requires WellFounded(s)
  {
    n.NegationType? && n.ty in s && s[Follow(s, n.ty)].SingletonType? && s[Follow(s, n.ty)].variant.BooleanSingleton?
  }

  /** The boolean singleton that `boolean & ~b` leaves: `false` for `~true`, `true` for `~false`. */
  function Complement(s: Store, b: Builtins, n: TypeNode): (t: TypeId)
    requires WellFounded(s) && NegatedBooleanSingleton(s, n)
    ensures t == b.falseType || t == b.trueType
  {
    if s[Follow(s, n.ty)].variant.b then b.falseType else b.trueType
  }

  /** Whether `intersect` hands an operand to a helper outside this model. */
  predicate Compound(n: TypeNode) {
    n.UnionType? || n.IntersectionType? || n.NegationType?
  }

  /** A result placed in a fresh type of the arena. */
  function NewType(a: Arena, b: Builtins, n: TypeNode): (res: (Arena, Outcome))
    requires ValidArena(a, b) && EdgesBelow(a.types, a.next, n)
    ensures ValidArena(res.0, b) && Extends(a, res.0)
    ensures res.1.Done? && res.1.ty in res.0.types && res.0.types[res.1.ty] == n
  {
    var added := AddType(a, b, n);
    (added.0, Done(added.1))
  }

  /**
   * `intersect(left, right)`: both sides simplified, then the top and bottom prelude,
   * then `basicIntersect`, whose "no simpler form" becomes a new intersection type.
   */
  function Intersect(a: Arena, b: Builtins, l: TypeId, r: TypeId): (res: (Arena, Outcome))
    requires ValidArena(a, b) && l in a.types && r in a.types
    ensures ValidArena(res.0, b) && Extends(a, res.0)
    ensures res.1.Done? ==> res.1.ty in res.0.types
  {
    var sl := SimplifyType(a, b, l);
    var sr := SimplifyType(sl.0, b, r);
    var res := IntersectSimplified(sr.0, b, sl.1, sr.1);
    ExtendsTransitive(a, sl.0, sr.0);
    ExtendsTransitive(a, sr.0, res.0);
    res
  }

  /** The body of `intersect` after both operands are simplified (Simplify.cpp:1437-1517). */
  function IntersectSimplified(a: Arena, b: Builtins, left: TypeId, right: TypeId): (res: (Arena, Outcome))
    requires ValidArena(a, b) && left in a.types && right in a.types
    ensures ValidArena(res.0, b) && Extends(a, res.0)
    ensures res.1.Done? ==> res.1.ty in res.0.types
  {
    var s := a.types;
    var ln, rn := s[left], s[right];
    if left == right then (a, Done(left))
    else if ln.AnyType? && rn.ErrorType? then (a, Done(right))
    else if rn.AnyType? && ln.ErrorType? then (a, Done(left))
    else if ln.UnknownType? && !rn.ErrorType? then (a, Done(right))
    else if rn.UnknownType? && !ln.ErrorType? then (a, Done(left))
    else if ln.AnyType? && rn.UnionType? then (a, Delegated)
    else if ln.UnionType? && rn.AnyType? then (a, Delegated)
    else if ln.AnyType? then NewType(a, b, UnionType([right, b.errorType]))
    else if rn.AnyType? then NewType(a, b, UnionType([left, b.errorType]))
    else if ln.UnknownType? then (a, Done(right))
    else if rn.UnknownType? then (a, Done(left))
    else if ln.NeverType? then (a, Done(left))
    else if rn.NeverType? then (a, Done(right))
    else if Compound(ln) || Compound(rn) then (a, Delegated)
    else
      var basic := BasicIntersect(a, b, left, right);
      match basic.1
      case Some(t) => (basic.0, Done(t))
      case None => NewType(a, b, IntersectionType([left, right]))
  }

  lemma ExtendsTransitive(a1: Arena, a2: Arena, a3: Arena)
    requires Extends(a1, a2) && Extends(a2, a3)
    ensures Extends(a1, a3)
  {
  }

  /** `union_(left, right)` for operands that are not unions after simplification. */
  function Union(a: Arena, b: Builtins, l: TypeId, r: TypeId): (res: (Arena, Outcome))
    requires ValidArena(a, b) && l in a.types && r in a.types
    ensures ValidArena(res.0, b) && Extends(a, res.0)
    ensures res.1.Done? ==> res.1.ty in res.0.types
  {
    var sl := SimplifyType(a, b, l);
    var sr := SimplifyType(sl.0, b, r);
    var res := UnionSimplified(sr.0, b, sl.1, sr.1);
    ExtendsTransitive(a, sl.0, sr.0);
    ExtendsTransitive(a, sr.0, res.0);
    res
  }

  /** The body of `union_` after both operands are simplified (Simplify.cpp:1527-1599). */
  function UnionSimplified(a: Arena, b: Builtins, left: TypeId, right: TypeId): (res: (Arena, Outcome))
    requires ValidArena(a, b) && left in a.types && right in a.types
    ensures ValidArena(res.0, b) && Extends(a, res.0)
    ensures res.1.Done? ==> res.1.ty in res.0.types
  {
    var s := a.types;
    var ln, rn := s[left], s[right];
    if ln.NeverType? then (a, Done(right))
    else if rn.NeverType? then (a, Done(left))
    else if ln.UnionType? || rn.UnionType? then (a, Delegated)
    else
      var relation := Relate(s, left, right, {}).0;
      if left == right || relation == Coincident || relation == Superset then (a, Done(left))
      else if relation == Subset then (a, Done(right))
      else if ln.SingletonType? && ln.variant.BooleanSingleton? && rn.SingletonType? && rn.variant.BooleanSingleton?
              && ln.variant.b != rn.variant.b then (a, Done(b.booleanType))
      else NewType(a, b, UnionType([left, right]))
  }

  // ---------------------------------------------------------------------------------
  // Properties of intersect and union_

  /** Operands that `simplify` returns followed and otherwise unchanged. */
  predicate Plain(s: Store, t: TypeId)
    requires WellFounded(s) && t in s
  {
    !s[Follow(s, t)].NegationType?
  }

  /** The prelude of `intersect` on simplified operands, one of which is never. */
  lemma IntersectSimplifiedNever(a: Arena, b: Builtins, x: TypeId)
    requires ValidArena(a, b) && x in a.types && !a.types[x].AnyType?
    ensures IntersectSimplified(a, b, x, b.neverType).1 == Done(if a.types[x].NeverType? then x else b.neverType)
    ensures IntersectSimplified(a, b, b.neverType, x).1 == Done(b.neverType)
  {
  }

  /**
   * Intersecting with never gives never, for every other side that does not simplify to
   * any: the builtin never, or the other side itself when that is a never type.
   */
  lemma IntersectNever(a: Arena, b: Builtins, x: TypeId)
    requires ValidArena(a, b) && x in a.types
    requires var sl := SimplifyType(a, b, x); !sl.0.types[sl.1].AnyType?
    ensures var sl := SimplifyType(a, b, x);
      Intersect(a, b, x, b.neverType).1 == Done(if sl.0.types[sl.1].NeverType? then sl.1 else b.neverType)
    ensures Intersect(a, b, b.neverType, x).1 == Done(b.neverType)
  {
    var sl := SimplifyType(a, b, x);
    assert SimplifyType(sl.0, b, b.neverType) == (sl.0, b.neverType);
    assert Intersect(a, b, x, b.neverType).1 == IntersectSimplified(sl.0, b, sl.1, b.neverType).1;
    assert SimplifyType(a, b, b.neverType) == (a, b.neverType);
    assert Intersect(a, b, b.neverType, x).1 == IntersectSimplified(sl.0, b, b.neverType, sl.1).1;
    IntersectSimplifiedNever(sl.0, b, sl.1);
  }

  /** The prelude of `intersect` on simplified operands, one of which is unknown. */
  lemma IntersectSimplifiedUnknown(a: Arena, b: Builtins, x: TypeId)
    requires ValidArena(a, b) && x in a.types && !a.types[x].UnknownType?
    ensures IntersectSimplified(a, b, x, b.unknownType).1 == Done(x)
    ensures IntersectSimplified(a, b, b.unknownType, x).1 == Done(x)
  {
  }

  /** Intersecting with unknown gives the simplified other side back, whichever side it is on. */
  lemma IntersectUnknown(a: Arena, b: Builtins, x: TypeId)
    requires ValidArena(a, b) && x in a.types
    requires var sl := SimplifyType(a, b, x); !sl.0.types[sl.1].UnknownType?
    ensures Intersect(a, b, x, b.unknownType).1 == Done(SimplifyType(a, b, x).1)
    ensures Intersect(a, b, b.unknownType, x).1 == Done(SimplifyType(a, b, x).1)
  {
    var sl := SimplifyType(a, b, x);
    assert SimplifyType(sl.0, b, b.unknownType) == (sl.0, b.unknownType);
    assert Intersect(a, b, x, b.unknownType).1 == IntersectSimplified(sl.0, b, sl.1, b.unknownType).1;
    assert SimplifyType(a, b, b.unknownType) == (a, b.unknownType);
    assert Intersect(a, b, b.unknownType, x).1 == IntersectSimplified(sl.0, b, b.unknownType, sl.1).1;
    IntersectSimplifiedUnknown(sl.0, b, sl.1);
  }

  /** `true | false` is `boolean`, and so is `false | true`. */
  lemma UnionBooleanSingletons(a: Arena, b: Builtins)
    requires ValidArena(a, b)
    ensures Union(a, b, b.trueType, b.falseType).1 == Done(b.booleanType)
    ensures Union(a, b, b.falseType, b.trueType).1 == Done(b.booleanType)
  {
    var s := a.types;
    assert SimplifyType(a, b, b.trueType) == (a, b.trueType);
    assert SimplifyType(a, b, b.falseType) == (a, b.falseType);
    RelateLeaves(s, b.trueType, b.falseType, {});
    RelateLeaves(s, b.falseType, b.trueType, {});
  }

  /** An extern class intersected with one of its superclasses is the class itself. */
  lemma IntersectSubclass(a: Arena, b: Builtins, child: TypeId, parent: TypeId)
    requires ValidArena(a, b) && child in a.types && parent in a.types && child != parent
    requires a.types[child].ExternType? && a.types[parent].ExternType?
    requires IsSubclass(a.types, child, parent)
    ensures Intersect(a, b, child, parent).1 == Done(child)
    ensures Intersect(a, b, parent, child).1 == Done(child)
  {
    RelateExtern(a.types, child, parent);
    RelateExtern(a.types, parent, child);
    IntersectExterns(a, b, child, parent);
    IntersectExterns(a, b, parent, child);
  }

  /** Two distinct extern classes are intersected by their relation alone. */
  lemma IntersectExterns(a: Arena, b: Builtins, l: TypeId, r: TypeId)
    requires ValidArena(a, b) && l in a.types && r in a.types && l != r
    requires a.types[l].ExternType? && a.types[r].ExternType?
    ensures var relation := Relate(a.types, l, r, {}).0;
      && (relation == Subset ==> Intersect(a, b, l, r).1 == Done(l))
      && (relation == Superset ==> Intersect(a, b, l, r).1 == Done(r))
  {
    ExternsSimplified(a, b, l, r);
    BasicIntersectExterns(a.types, b, l, r);
    ExternsBasic(a, b, l, r);
  }

  /** Two distinct extern classes reach `basicIntersect`'s relation step. */
  lemma ExternsBasic(a: Arena, b: Builtins, l: TypeId, r: TypeId)
    requires ValidArena(a, b) && l in a.types && r in a.types && l != r
    requires a.types[l].ExternType? && a.types[r].ExternType?
    ensures BasicIntersectRest(a.types, b, l, r).Some? ==>
      IntersectSimplified(a, b, l, r) == (a, Done(BasicIntersectRest(a.types, b, l, r).value))
  {
    BasicIntersectNoAny(a, b, l, r);
  }

  /** Without `any` on either side, `basicIntersect` keeps the arena and is its store-only part. */
  lemma BasicIntersectNoAny(a: Arena, b: Builtins, l: TypeId, r: TypeId)
    requires ValidArena(a, b) && l in a.types && r in a.types
    requires !a.types[Follow(a.types, l)].AnyType? && !a.types[Follow(a.types, r)].AnyType?
    ensures BasicIntersect(a, b, l, r) == (a, BasicIntersectRest(a.types, b, Follow(a.types, l), Follow(a.types, r)))
  {
  }

  /** `basicIntersect` of two related extern classes keeps the narrower one. */
  lemma BasicIntersectExterns(s: Store, b: Builtins, l: TypeId, r: TypeId)
    requires WellFounded(s) && ValidBuiltins(s, b) && l in s && r in s && l != r
    requires s[l].ExternType? && s[r].ExternType?
    ensures var relation := Relate(s, l, r, {}).0;
      && (relation == Subset ==> BasicIntersectRest(s, b, l, r) == Some(l))
      && (relation == Superset ==> BasicIntersectRest(s, b, l, r) == Some(r))
  {
  }

  /**
   * `any` against anything but an error gives a fresh `T | *error-type*`, with `T` the
   * other side followed.
   */
  lemma BasicIntersectAny(a: Arena, b: Builtins, x: TypeId, y: TypeId)
    requires ValidArena(a, b) && x in a.types && y in a.types
    requires a.types[Follow(a.types, x)].AnyType? && !a.types[Follow(a.types, y)].ErrorType?
    ensures BasicIntersect(a, b, x, y).1 == Some(a.next)
    ensures BasicIntersect(a, b, x, y).0.types[a.next] == UnionType([Follow(a.types, y), b.errorType])
  {
  }

  /** `boolean & ~true` is `false` and `boolean & ~false` is `true`. */
  lemma BasicIntersectBooleanNegation(s: Store, b: Builtins, x: TypeId, y: TypeId)
    requires WellFounded(s) && ValidBuiltins(s, b) && x in s && y in s
    requires s[x] == PrimitiveType(Boolean)
    requires s[y].NegationType? && s[Follow(s, s[y].ty)].SingletonType? && s[Follow(s, s[y].ty)].variant.BooleanSingleton?
    ensures var expected := if s[Follow(s, s[y].ty)].variant.b then b.falseType else b.trueType;
      BasicIntersectRest(s, b, x, y) == Some(expected) && BasicIntersectRest(s, b, y, x) == Some(expected)
  {
  }

  /** Extern classes are already simplified, so `intersect` goes straight to its body. */
  lemma ExternsSimplified(a: Arena, b: Builtins, l: TypeId, r: TypeId)
    requires ValidArena(a, b) && l in a.types && r in a.types
    requires a.types[l].ExternType? && a.types[r].ExternType?
    ensures Intersect(a, b, l, r) == IntersectSimplified(a, b, l, r)
  {
    ExternSimplified(a, b, l);
    ExternSimplified(a, b, r);
  }

  /** An extern class simplifies to itself, in the same arena. */
  lemma ExternSimplified(a: Arena, b: Builtins, x: TypeId)
    requires ValidArena(a, b) && x in a.types && a.types[x].ExternType?
    ensures SimplifyType(a, b, x) == (a, x)
  {
    assert Follow(a.types, x) == x;
  }

  /** The union of an extern class and one of its superclasses is the superclass. */
  lemma UnionSubclass(a: Arena, b: Builtins, child: TypeId, parent: TypeId)
    requires ValidArena(a, b) && child in a.types && parent in a.types && child != parent
    requires a.types[child].ExternType? && a.types[parent].ExternType?
    requires IsSubclass(a.types, child, parent)
    ensures Union(a, b, child, parent).1 == Done(parent)
    ensures Union(a, b, parent, child).1 == Done(parent)
  {
    RelateExtern(a.types, child, parent);
    RelateExtern(a.types, parent, child);
    UnionExterns(a, b, child, parent);
    UnionExterns(a, b, parent, child);
  }

  /** Two distinct extern classes are united by their relation alone. */
  lemma UnionExterns(a: Arena, b: Builtins, l: TypeId, r: TypeId)
    requires ValidArena(a, b) && l in a.types && r in a.types && l != r
    requires a.types[l].ExternType? && a.types[r].ExternType?
    ensures var relation := Relate(a.types, l, r, {}).0;
      && (relation == Subset ==> Union(a, b, l, r).1 == Done(r))
      && (relation == Superset ==> Union(a, b, l, r).1 == Done(l))
  {
    ExternSimplified(a, b, l);
    ExternSimplified(a, b, r);
    assert Union(a, b, l, r) == UnionSimplified(a, b, l, r);
  }

  /** Intersection and union of a plain type with itself give the followed type back. */
  lemma IntersectUnionIdempotent(a: Arena, b: Builtins, x: TypeId)
    requires ValidArena(a, b) && x in a.types && Plain(a.types, x)
    ensures Intersect(a, b, x, x).1 == Done(Follow(a.types, x))
    ensures !a.types[Follow(a.types, x)].UnionType? ==> Union(a, b, x, x).1 == Done(Follow(a.types, x))
  {
  }

  // ---------------------------------------------------------------------------------
  // The relation fallback of intersect and union_ on ordinary leaves

  /** A primitive, a singleton or an extern class: a leaf that is none of the top and bottom types. */
  predicate Ordinary(n: TypeNode) {
    n.PrimitiveType? || n.SingletonType? || n.ExternType?
  }

  /** Two ordinary leaves are always related decisively: the reference table never answers Intersects. */
  lemma OrdinaryDecided(s: Store, left: TypeId, right: TypeId)
    requires WellFounded(s) && left in s && right in s && Ordinary(s[left]) && Ordinary(s[right])
    ensures LeafRelation(s, left, right) != Intersects
  {
  }

  /**
   * `basicIntersect` on two ordinary followed leaves is the relation fallback: Disjoint is
   * never, a contained left side (Subset or Coincident) is the left side, and a contained
   * right side is the right side. The boolean rules agree with it.
   */
  lemma BasicIntersectFallback(s: Store, b: Builtins, left: TypeId, right: TypeId)
    requires WellFounded(s) && ValidBuiltins(s, b) && left in s && right in s
    requires Ordinary(s[left]) && Ordinary(s[right])
    ensures var rel := LeafRelation(s, left, right);
      && (rel == Disjoint ==> BasicIntersectRest(s, b, left, right) == Some(b.neverType))
      && (rel == Subset || rel == Coincident ==> BasicIntersectRest(s, b, left, right) == Some(left))
      && (rel == Superset ==> BasicIntersectRest(s, b, left, right) == Some(right))
  {
    RelateLeaves(s, left, right, {});
  }

  /** An operand that follows to an ordinary leaf is already simplified. */
  lemma OrdinarySimplified(a: Arena, b: Builtins, x: TypeId)
    requires ValidArena(a, b) && x in a.types && Ordinary(a.types[Follow(a.types, x)])
    ensures SimplifyType(a, b, x) == (a, Follow(a.types, x))
  {
  }

  /** The body of `intersect` on two ordinary leaves. */
  lemma IntersectSimplifiedOrdinary(a: Arena, b: Builtins, left: TypeId, right: TypeId)
    requires ValidArena(a, b) && left in a.types && right in a.types
    requires Ordinary(a.types[left]) && Ordinary(a.types[right])
    ensures var rel, res := LeafRelation(a.types, left, right), IntersectSimplified(a, b, left, right);
      && res.0 == a
      && (rel == Disjoint ==> res.1 == Done(b.neverType))
      && (rel == Subset || rel == Coincident ==> res.1 == Done(left))
      && (rel == Superset ==> res.1 == Done(right))
  {
    var s := a.types;
    if left != right {
      assert Follow(s, left) == left && Follow(s, right) == right;
      BasicIntersectNoAny(a, b, left, right);
      BasicIntersectFallback(s, b, left, right);
    }
  }

  /**
   * `intersect` of two operands that follow to ordinary leaves keeps the arena and answers
   * by the reference relation of the followed types.
   */
  lemma IntersectOrdinary(a: Arena, b: Builtins, l: TypeId, r: TypeId)
    requires ValidArena(a, b) && l in a.types && r in a.types
    requires Ordinary(a.types[Follow(a.types, l)]) && Ordinary(a.types[Follow(a.types, r)])
    ensures var left, right := Follow(a.types, l), Follow(a.types, r);
      var rel, res := LeafRelation(a.types, left, right), Intersect(a, b, l, r);
      && res.0 == a && rel != Intersects
      && (rel == Disjoint ==> res.1 == Done(b.neverType))
      && (rel == Subset || rel == Coincident ==> res.1 == Done(left))
      && (rel == Superset ==> res.1 == Done(right))
  {
    var left, right := Follow(a.types, l), Follow(a.types, r);
    OrdinarySimplified(a, b, l);
    OrdinarySimplified(a, b, r);
    assert Intersect(a, b, l, r) == IntersectSimplified(a, b, left, right);
    OrdinaryDecided(a.types, left, right);
    IntersectSimplifiedOrdinary(a, b, left, right);
  }

  /** `true` and `false`, in either order. */
  predicate OppositeBooleans(ln: TypeNode, rn: TypeNode) {
    ln.SingletonType? && ln.variant.BooleanSingleton? && rn.SingletonType? && rn.variant.BooleanSingleton?
    && ln.variant.b != rn.variant.b
  }

  /** The body of `union_` on two ordinary leaves. */
  lemma UnionSimplifiedOrdinary(a: Arena, b: Builtins, left: TypeId, right: TypeId)
    requires ValidArena(a, b) && left in a.types && right in a.types
    requires Ordinary(a.types[left]) && Ordinary(a.types[right])
    ensures var booleans := OppositeBooleans(a.types[left], a.types[right]);
      var rel, res := LeafRelation(a.types, left, right), UnionSimplified(a, b, left, right);
      && (rel == Coincident || rel == Superset ==> res == (a, Done(left)))
      && (rel == Subset ==> res == (a, Done(right)))
      && (rel == Disjoint && booleans ==> res == (a, Done(b.booleanType)))
      && (rel == Disjoint && !booleans ==>
            res.1 == Done(a.next) && res.0.types == a.types[a.next := UnionType([left, right])])
  {
    RelateLeaves(a.types, left, right, {});
    if left != right && LeafRelation(a.types, left, right) == Disjoint && !OppositeBooleans(a.types[left], a.types[right]) {
      UnionSimplifiedFresh(a, b, left, right);
    }
  }

  /** When the relation is Disjoint and the operands are not `true` and `false`, `union_` adds a union. */
  lemma UnionSimplifiedFresh(a: Arena, b: Builtins, left: TypeId, right: TypeId)
    requires ValidArena(a, b) && left in a.types && right in a.types && left != right
    requires Ordinary(a.types[left]) && Ordinary(a.types[right])
    requires Relate(a.types, left, right, {}).0 == Disjoint && !OppositeBooleans(a.types[left], a.types[right])
    ensures var res := UnionSimplified(a, b, left, right);
      res.1 == Done(a.next) && res.0.types == a.types[a.next := UnionType([left, right])]
  {
    var s := a.types;
    var ln, rn := s[left], s[right];
    assert !ln.NeverType? && !rn.NeverType? && !ln.UnionType? && !rn.UnionType?;
    assert EdgesBelow(s, a.next, UnionType([left, right]));
    assert UnionSimplified(a, b, left, right) == NewType(a, b, UnionType([left, right]));
    NewTypeStore(a, b, UnionType([left, right]));
  }

  /** `NewType` stores the node under the next free id and changes nothing else. */
  lemma NewTypeStore(a: Arena, b: Builtins, n: TypeNode)
    requires ValidArena(a, b) && EdgesBelow(a.types, a.next, n)
    ensures NewType(a, b, n).1 == Done(a.next) && NewType(a, b, n).0.types == a.types[a.next := n]
  {
  }

  /**
   * `union_` of two operands that follow to ordinary leaves: a contained right side
   * (Coincident or Superset) gives the left side, a contained left side the right side,
   * `true` and `false` give `boolean`, and every other pair a fresh two-part union.
   */
  lemma UnionOrdinary(a: Arena, b: Builtins, l: TypeId, r: TypeId)
    requires ValidArena(a, b) && l in a.types && r in a.types
    requires Ordinary(a.types[Follow(a.types, l)]) && Ordinary(a.types[Follow(a.types, r)])
    ensures var left, right := Follow(a.types, l), Follow(a.types, r);
      var booleans := OppositeBooleans(a.types[left], a.types[right]);
      var rel, res := LeafRelation(a.types, left, right), Union(a, b, l, r);
      && (rel == Coincident || rel == Superset ==> res == (a, Done(left)))
      && (rel == Subset ==> res == (a, Done(right)))
      && (rel == Disjoint && booleans ==> res == (a, Done(b.booleanType)))
      && (rel == Disjoint && !booleans ==>
            res.1 == Done(a.next) && res.0.types == a.types[a.next := UnionType([left, right])])
  {
    var left, right := Follow(a.types, l), Follow(a.types, r);
    OrdinarySimplified(a, b, l);
    OrdinarySimplified(a, b, r);
    assert Union(a, b, l, r) == UnionSimplified(a, b, left, right);
    UnionSimplifiedOrdinary(a, b, left, right);
  }

  /** The relation table on the atoms of the source's tests. */
  lemma LeafAtoms(s: Store, x: TypeId, y: TypeId)
    requires WellFounded(s) && x in s && y in s && x != y
    ensures s[x].PrimitiveType? && s[y].PrimitiveType? ==>
      LeafRelation(s, x, y) == if s[x].kind == s[y].kind then Coincident else Disjoint
    ensures s[x].SingletonType? && s[x].variant.StringSingleton? && s[y] == PrimitiveType(String) ==>
      LeafRelation(s, x, y) == Subset && LeafRelation(s, y, x) == Superset
    ensures s[x].SingletonType? && s[y].SingletonType? && s[x].variant != s[y].variant ==>
      LeafRelation(s, x, y) == Disjoint
    ensures s[x].ExternType? && s[y].ExternType? && !IsSubclass(s, x, y) && !IsSubclass(s, y, x) ==>
      LeafRelation(s, x, y) == Disjoint
  {
  }

  /**
   * The source's own cases: distinct primitive kinds intersect to never and equal kinds
   * to the left one, a string singleton inside `string` is itself in either order, and two
   * different string singletons intersect to never.
   */
  lemma IntersectAtoms(a: Arena, b: Builtins, x: TypeId, y: TypeId)
    requires ValidArena(a, b) && x in a.types && y in a.types && x != y
    ensures a.types[x].PrimitiveType? && a.types[y].PrimitiveType? ==>
      Intersect(a, b, x, y).1 == Done(if a.types[x].kind == a.types[y].kind then x else b.neverType)
    ensures a.types[x].SingletonType? && a.types[x].variant.StringSingleton? && a.types[y] == PrimitiveType(String) ==>
      Intersect(a, b, x, y).1 == Done(x) && Intersect(a, b, y, x).1 == Done(x)
    ensures a.types[x].SingletonType? && a.types[y].SingletonType? && a.types[x].variant != a.types[y].variant ==>
      Intersect(a, b, x, y).1 == Done(b.neverType)
  {
    var s := a.types;
    if Ordinary(s[x]) && Ordinary(s[y]) {
      assert Follow(s, x) == x && Follow(s, y) == y;
      LeafAtoms(s, x, y);
      IntersectOrdinary(a, b, x, y);
      IntersectOrdinary(a, b, y, x);
    }
  }

  /** Two unrelated extern classes intersect to never. */
  lemma IntersectUnrelated(a: Arena, b: Builtins, x: TypeId, y: TypeId)
    requires ValidArena(a, b) && x in a.types && y in a.types && x != y
    requires a.types[x].ExternType? && a.types[y].ExternType?
    requires !IsSubclass(a.types, x, y) && !IsSubclass(a.types, y, x)
    ensures Intersect(a, b, x, y).1 == Done(b.neverType)
  {
    assert Follow(a.types, x) == x && Follow(a.types, y) == y;
    LeafAtoms(a.types, x, y);
    IntersectOrdinary(a, b, x, y);
  }
}
