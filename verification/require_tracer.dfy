/**
 * The require tracer of RequireTracer.cpp: finds the `require(...)` calls of one module's
 * syntax tree and resolves each argument to a module before type checking runs.
 *
 * Three phases, as in the source:
 *  - collection: one pre-order walk records the require calls, and the initializer of each
 *    local (cleared again when the local is assigned);
 *  - closure: a work list seeded with the require arguments is extended, while it is
 *    iterated, by the node each entry depends on (`Dependent`, the source's `getDependent`);
 *  - resolution: a reverse pass over the work list memoises a `ModuleInfo` per node, copying
 *    a predecessor's info or asking the file resolver, and the require list is assembled.
 *
 * The file resolver is a parameter (`Resolver`). The closure loop of the source terminates
 * only when the dependency edges are acyclic; `Ranked` states this as "every dependency is a
 * smaller id", which holds for a post-order numbering of a parse tree because a local's
 * initializer precedes every use of the local.
 */
module RequireTracer {
  import opened Options
  import opened Ast

  /** `ModuleInfo`: a module name and whether the require is optional (default false). */
  datatype ModuleInfo = ModuleInfo(name: string, optional: bool)

  /** The empty `ModuleInfo` recorded for a require call whose argument did not resolve. */
  const Unresolved := ModuleInfo("", false)

  /** An entry of `requireList`: the module name and the location of the call. */
  datatype RequireEntry = RequireEntry(name: string, location: Location)

  /** `RequireTraceResult`. */
  datatype TraceResult = TraceResult(exprs: map<NodeId, ModuleInfo>, requireList: seq<RequireEntry>)

  /** `FileResolver::resolveModule(context, expr)`; an absent context is a null pointer. */
  type Resolver = (Option<ModuleInfo>, NodeId) -> Option<ModuleInfo>

  /** The `locals` table: a local's initializer, or null once the local has been assigned. */
  type Bindings = map<Local, Option<NodeId>>

  /** `locals[l]`, where a missing entry reads as null. */
  function Lookup(b: Bindings, l: Local): Option<NodeId> {
    if l in b then b[l] else None
  }

  // ---------------------------------------------------------------------------------
  // Collection: the visitor walk (RequireTracer.cpp:28-77)

  /** `visit` returns false only for a type assertion: nothing beneath one is visited. */
  predicate Descends(n: Node) {
    !n.ExprTypeAssertion?
  }

  /** The nodes the visitor walk reaches from `n`, in pre-order. */
  function Visited(t: Tree, n: NodeId): (r: seq<NodeId>)
    requires WellFormed(t) && n in t
    ensures |r| >= 1 && r[0] == n
    ensures forall i | 0 <= i < |r| :: r[i] in t && r[i] <= n
    decreases n, 1
  {
    [n] + (if Descends(t[n]) then VisitedList(t, n, Children(t[n])) else [])
  }

  function VisitedList(t: Tree, owner: NodeId, cs: seq<NodeId>): (r: seq<NodeId>)
    requires WellFormed(t)
    requires forall i | 0 <= i < |cs| :: cs[i] < owner && cs[i] in t
    ensures forall i | 0 <= i < |r| :: r[i] in t && r[i] < owner
    decreases owner, 0, |cs|
  {
    if cs == [] then [] else Visited(t, cs[0]) + VisitedList(t, owner, cs[1..])
  }

  lemma {:induction false} VisitedListMember(t: Tree, owner: NodeId, cs: seq<NodeId>, i: nat)
    requires WellFormed(t)
    requires forall j | 0 <= j < |cs| :: cs[j] < owner && cs[j] in t
    requires i < |cs|
    ensures cs[i] in VisitedList(t, owner, cs)
    decreases |cs|
  {
    if i > 0 {
      VisitedListMember(t, owner, cs[1..], i - 1);
    }
  }

  /**
   * The walk enters every child of a node other than a type assertion; beneath a type
   * assertion it stops, so `require(x) :: T` is never seen.
   */
  lemma VisitedChildren(t: Tree, n: NodeId)
    requires WellFormed(t) && n in t
    ensures Descends(t[n]) ==> forall c | c in Children(t[n]) :: c in Visited(t, n)
    ensures !Descends(t[n]) ==> Visited(t, n) == [n]
  {
    if Descends(t[n]) {
      forall c | c in Children(t[n])
        ensures c in Visited(t, n)
      {
        var i :| 0 <= i < |Children(t[n])| && Children(t[n])[i] == c;
        VisitedListMember(t, n, Children(t[n]), i);
      }
    }
  }

  /** `visit(AstExprCall*)` records a call to the global `require` with at least one argument. */
  predicate IsRequireCall(t: Tree, c: NodeId) {
    && c in t && t[c].ExprCall?
    && t[c].func in t && t[t[c].func] == ExprGlobal("require")
    && |t[c].args| >= 1
  }

  /** The recorded require calls among `ns`, in walk order. */
  function RequireCalls(t: Tree, ns: seq<NodeId>): (r: seq<NodeId>)
    ensures |r| <= |ns|
    ensures forall x :: x in r <==> x in ns && IsRequireCall(t, x)
  {
    if ns == [] then []
    else (if IsRequireCall(t, ns[0]) then [ns[0]] else []) + RequireCalls(t, ns[1..])
  }

  /** `visit(AstStatLocal*)`: binds `vars[i]` to `values[i]` for every `i` both sequences have. */
  function BindLocals(b: Bindings, vars: seq<Local>, values: seq<NodeId>, i: nat): Bindings
    decreases |vars| - i
  {
    if i < |vars| && i < |values| then BindLocals(b[vars[i] := Some(values[i])], vars, values, i + 1)
    else b
  }

  /** `visit(AstStatAssign*)`: every local that is an assignment target loses its initializer. */
  function ClearAssigned(b: Bindings, t: Tree, targets: seq<NodeId>, i: nat): Bindings
    decreases |targets| - i
  {
    if i < |targets| then
      var b' := if targets[i] in t && t[targets[i]].ExprLocal? then b[t[targets[i]].local := None] else b;
      ClearAssigned(b', t, targets, i + 1)
    else b
  }

  /** The effect of visiting one node on the `locals` table. */
  function Bind(b: Bindings, t: Tree, n: NodeId): Bindings
    requires n in t
  {
    match t[n]
    case StatLocal(vars, _, values) => BindLocals(b, vars, values, 0)
    case StatAssign(targets, _) => ClearAssigned(b, t, targets, 0)
    case _ => b
  }

  /** The `locals` table after visiting `ns` in order. */
  function CollectBindings(b: Bindings, t: Tree, ns: seq<NodeId>): Bindings
    requires forall i | 0 <= i < |ns| :: ns[i] in t
    decreases |ns|
  {
    if ns == [] then b else CollectBindings(Bind(b, t, ns[0]), t, ns[1..])
  }

  function TracedCalls(t: Tree, root: NodeId): seq<NodeId>
    requires WellFormed(t) && root in t
  {
    RequireCalls(t, Visited(t, root))
  }

  function TracedBindings(t: Tree, root: NodeId): Bindings
    requires WellFormed(t) && root in t
  {
    CollectBindings(map[], t, Visited(t, root))
  }

  // The same table described per local: the last write to it wins.

  /** The initializer the slots `i..` of a `local` statement give `x`, the last slot winning. */
  function SlotBinding(vars: seq<Local>, values: seq<NodeId>, x: Local, i: nat): Option<NodeId>
    decreases |vars| - i
  {
    if i < |vars| && i < |values| then
      var later := SlotBinding(vars, values, x, i + 1);
      if later.Some? then later else if vars[i] == x then Some(values[i]) else None
    else None
  }

  /** Some target from index `i` on is the local `x`. */
  predicate AssignsFrom(t: Tree, targets: seq<NodeId>, x: Local, i: nat) {
    exists j :: i <= j < |targets| && targets[j] in t && t[targets[j]] == ExprLocal(x)
  }

  /** What visiting node `n` writes to the entry of `x`, if anything. */
  function Effect(t: Tree, n: NodeId, x: Local): Option<Option<NodeId>>
    requires n in t
  {
    match t[n]
    case StatLocal(vars, _, values) =>
      var s := SlotBinding(vars, values, x, 0);
      if s.Some? then Some(s) else None
    case StatAssign(targets, _) => if AssignsFrom(t, targets, x, 0) then Some(None) else None
    case _ => None
  }

  /** The last write to the entry of `x` made by visiting `ns`. */
  function LastEffect(t: Tree, ns: seq<NodeId>, x: Local): Option<Option<NodeId>>
    requires forall i | 0 <= i < |ns| :: ns[i] in t
  {
    if ns == [] then None
    else
      var later := LastEffect(t, ns[1..], x);
      if later.Some? then later else Effect(t, ns[0], x)
  }

  lemma {:induction false} BindLocalsSlot(b: Bindings, vars: seq<Local>, values: seq<NodeId>, i: nat, x: Local)
    ensures var r := BindLocals(b, vars, values, i);
      var s := SlotBinding(vars, values, x, i);
      && (s.Some? ==> x in r && r[x] == s)
      && (s.None? ==> (x in r <==> x in b) && (x in b ==> r[x] == b[x]))
    decreases |vars| - i
  {
    if i < |vars| && i < |values| {
      BindLocalsSlot(b[vars[i] := Some(values[i])], vars, values, i + 1, x);
    }
  }

  lemma {:induction false} ClearAssignedFrom(b: Bindings, t: Tree, targets: seq<NodeId>, i: nat, x: Local)
    ensures var r := ClearAssigned(b, t, targets, i);
      && (AssignsFrom(t, targets, x, i) ==> x in r && r[x] == None)
      && (!AssignsFrom(t, targets, x, i) ==> (x in r <==> x in b) && (x in b ==> r[x] == b[x]))
    decreases |targets| - i
  {
    if i < |targets| {
      var b' := if targets[i] in t && t[targets[i]].ExprLocal? then b[t[targets[i]].local := None] else b;
      ClearAssignedFrom(b', t, targets, i + 1, x);
      if AssignsFrom(t, targets, x, i) && !AssignsFrom(t, targets, x, i + 1) {
        var j :| i <= j < |targets| && targets[j] in t && t[targets[j]] == ExprLocal(x);
        assert j == i;
      }
      if AssignsFrom(t, targets, x, i + 1) {
        var j :| i + 1 <= j < |targets| && targets[j] in t && t[targets[j]] == ExprLocal(x);
        assert i <= j;
      }
    }
  }

  lemma BindEffect(b: Bindings, t: Tree, n: NodeId, x: Local)
    requires n in t
    ensures var r := Bind(b, t, n);
      var e := Effect(t, n, x);
      && (e.Some? ==> x in r && r[x] == e.value)
      && (e.None? ==> (x in r <==> x in b) && (x in b ==> r[x] == b[x]))
  {
    match t[n]
    case StatLocal(vars, _, values) => BindLocalsSlot(b, vars, values, 0, x);
    case StatAssign(targets, _) => ClearAssignedFrom(b, t, targets, 0, x);
    case _ =>
  }

  /**
   * After the walk, a local's entry is whatever the last statement that touched it wrote:
   * its initializer from the last `local` binding, or null from a later assignment.
   */
  lemma {:induction false} BindingsAreLastWrites(b: Bindings, t: Tree, ns: seq<NodeId>, x: Local)
    requires forall i | 0 <= i < |ns| :: ns[i] in t
    ensures var r := CollectBindings(b, t, ns);
      var e := LastEffect(t, ns, x);
      && (e.Some? ==> x in r && r[x] == e.value)
      && (e.None? ==> (x in r <==> x in b) && (x in b ==> r[x] == b[x]))
    decreases |ns|
  {
    if ns != [] {
      BindEffect(b, t, ns[0], x);
      BindingsAreLastWrites(Bind(b, t, ns[0]), t, ns[1..], x);
    }
  }

  // ---------------------------------------------------------------------------------
  // Dependencies (RequireTracer.cpp:101-152)

  /**
   * `getDependent`: the node whose module identity `n` inherits. A method call `a:m()`
   * depends on `a`; its callee is a named index for every parsed call, and any other callee
   * gives no dependency here.
   */
  function Dependent(t: Tree, b: Bindings, n: NodeId): Option<NodeId>
    requires n in t
  {
    match t[n]
    case ExprLocal(l) => Lookup(b, l)
    case ExprIndexName(e, _) => Some(e)
    case ExprIndexExpr(e, _) => Some(e)
    case ExprCall(f, _, self, _) =>
      if self && f in t && t[f].ExprIndexName? then Some(t[f].expr) else None
    case ExprGroup(e) => Some(e)
    case ExprTypeAssertion(_, annotation) => Some(annotation)
    case TypeGroup(ty) => Some(ty)
    case TypeTypeof(e) => Some(e)
    case _ => None
  }

  /** Every dependency edge goes to a present node with a smaller id. */
  predicate Ranked(t: Tree, b: Bindings) {
    forall n | n in t && Dependent(t, b, n).Some? :: Dependent(t, b, n).value < n && Dependent(t, b, n).value in t
  }

  /**
   * In a well-formed tree every dependency edge except local-to-initializer is a child edge,
   * so the tree is ranked as soon as each local's initializer precedes its uses.
   */
  lemma StructuralRanked(t: Tree, b: Bindings)
    requires WellFormed(t)
    requires forall n | n in t && t[n].ExprLocal? && Lookup(b, t[n].local).Some? ::
      Lookup(b, t[n].local).value < n && Lookup(b, t[n].local).value in t
    ensures Ranked(t, b)
  {
    forall n | n in t && Dependent(t, b, n).Some?
      ensures Dependent(t, b, n).value < n && Dependent(t, b, n).value in t
    {
      var d := Dependent(t, b, n).value;
      if t[n].ExprCall? {
        ChildBelow(t, n, t[n].func);
        ChildBelow(t, t[n].func, d);
      } else if !t[n].ExprLocal? {
        ChildBelow(t, n, d);
      }
    }
  }

  /** The number of dependency steps from `n` until a node without one. */
  function Height(t: Tree, b: Bindings, n: NodeId): nat
    requires Ranked(t, b) && n in t
    decreases n
  {
    match Dependent(t, b, n)
    case None => 0
    case Some(d) => 1 + Height(t, b, d)
  }

  /** The number of work-list entries the nodes of `ns` from index `i` on contribute: each its whole chain. */
  function ChainTotal(t: Tree, b: Bindings, ns: seq<NodeId>, i: nat): nat
    requires Ranked(t, b) && forall k | 0 <= k < |ns| :: ns[k] in t
    decreases |ns| - i
  {
    if i < |ns| then Height(t, b, ns[i]) + 1 + ChainTotal(t, b, ns, i + 1) else 0
  }

  lemma {:induction false} ChainTotalAppend(t: Tree, b: Bindings, ns: seq<NodeId>, d: NodeId, i: nat)
    requires Ranked(t, b) && d in t && forall k | 0 <= k < |ns| :: ns[k] in t
    requires i <= |ns|
    ensures ChainTotal(t, b, ns + [d], i) == ChainTotal(t, b, ns, i) + Height(t, b, d) + 1
    decreases |ns| - i
  {
    if i < |ns| {
      assert (ns + [d])[i] == ns[i];
      ChainTotalAppend(t, b, ns, d, i + 1);
    } else {
      assert (ns + [d])[i] == d;
    }
  }

  // ---------------------------------------------------------------------------------
  // Closure (RequireTracer.cpp:166-187)

  /** Every entry before `upto` that has a dependency finds it later in the list. */
  predicate DepsLater(t: Tree, b: Bindings, work: seq<NodeId>, upto: nat)
    requires forall k | 0 <= k < |work| :: work[k] in t
  {
    forall k | 0 <= k < upto && k < |work| && Dependent(t, b, work[k]).Some? ::
      exists j :: k < j < |work| && work[j] == Dependent(t, b, work[k]).value
  }

  /** Every entry from `from` on is the dependency of an earlier entry before `upto`. */
  predicate FromEarlier(t: Tree, b: Bindings, work: seq<NodeId>, from: nat, upto: nat)
    requires forall k | 0 <= k < |work| :: work[k] in t
  {
    forall j | from <= j < |work| ::
      exists k :: 0 <= k < j && k < upto && Dependent(t, b, work[k]) == Some(work[j])
  }

  /** One iteration of the closure loop keeps both shapes of the work list. */
  lemma ClosureStep(t: Tree, b: Bindings, work: seq<NodeId>, from: nat, i: nat)
    requires Ranked(t, b)
    requires forall k | 0 <= k < |work| :: work[k] in t
    requires i < |work| && DepsLater(t, b, work, i) && FromEarlier(t, b, work, from, i)
    ensures var dep := Dependent(t, b, work[i]);
      var work' := if dep.Some? then work + [dep.value] else work;
      && (forall k | 0 <= k < |work'| :: work'[k] in t)
      && DepsLater(t, b, work', i + 1) && FromEarlier(t, b, work', from, i + 1)
  {
    var dep := Dependent(t, b, work[i]);
    var work' := if dep.Some? then work + [dep.value] else work;
    assert forall k | 0 <= k < |work| :: work'[k] == work[k];
    DepsLaterStep(t, b, work, work', i);
    FromEarlierStep(t, b, work, work', from, i);
  }

  lemma DepsLaterStep(t: Tree, b: Bindings, work: seq<NodeId>, work': seq<NodeId>, i: nat)
    requires Ranked(t, b)
    requires forall k | 0 <= k < |work| :: work[k] in t
    requires i < |work| && DepsLater(t, b, work, i)
    requires work' == if Dependent(t, b, work[i]).Some? then work + [Dependent(t, b, work[i]).value] else work
    requires forall k | 0 <= k < |work'| :: work'[k] in t
    requires forall k | 0 <= k < |work| :: work'[k] == work[k]
    ensures DepsLater(t, b, work', i + 1)
  {
    forall k | 0 <= k < i + 1 && k < |work'| && Dependent(t, b, work'[k]).Some?
      ensures exists j :: k < j < |work'| && work'[j] == Dependent(t, b, work'[k]).value
    {
      if k == i {
        assert work'[|work|] == Dependent(t, b, work[i]).value;
      } else {
        var j :| k < j < |work| && work[j] == Dependent(t, b, work[k]).value;
        assert work'[j] == work[j];
      }
    }
  }

  lemma FromEarlierStep(t: Tree, b: Bindings, work: seq<NodeId>, work': seq<NodeId>, from: nat, i: nat)
    requires Ranked(t, b)
    requires forall k | 0 <= k < |work| :: work[k] in t
    requires i < |work| && FromEarlier(t, b, work, from, i)
    requires work' == if Dependent(t, b, work[i]).Some? then work + [Dependent(t, b, work[i]).value] else work
    requires forall k | 0 <= k < |work'| :: work'[k] in t
    requires forall k | 0 <= k < |work| :: work'[k] == work[k]
    ensures FromEarlier(t, b, work', from, i + 1)
  {
    forall j | from <= j < |work'|
      ensures exists k :: 0 <= k < j && k < i + 1 && Dependent(t, b, work'[k]) == Some(work'[j])
    {
      if j == |work| {
        assert Dependent(t, b, work'[i]) == Some(work'[j]);
      } else {
        var k :| 0 <= k < j && k < i && Dependent(t, b, work[k]) == Some(work[j]);
        assert work'[k] == work[k];
      }
    }
  }

  /** The chain total of the unprocessed entries drops by one per iteration. */
  lemma ClosureProgress(t: Tree, b: Bindings, work: seq<NodeId>, i: nat)
    requires Ranked(t, b)
    requires forall k | 0 <= k < |work| :: work[k] in t
    requires i < |work|
    ensures var dep := Dependent(t, b, work[i]);
      var work' := if dep.Some? then work + [dep.value] else work;
      ChainTotal(t, b, work', i + 1) + 1 == ChainTotal(t, b, work, i)
  {
    var dep := Dependent(t, b, work[i]);
    if dep.Some? {
      ChainTotalAppend(t, b, work, dep.value, i + 1);
    }
  }

  /**
   * The work list: the require arguments in call order, extended while it is iterated by
   * the dependency of each entry. Every entry's dependency occurs later in the list, every
   * entry past the seed is the dependency of an earlier one, and each seed contributes its
   * whole dependency chain.
   */
  method Closure(t: Tree, b: Bindings, seeds: seq<NodeId>) returns (work: seq<NodeId>)
    requires Ranked(t, b)
    requires forall i | 0 <= i < |seeds| :: seeds[i] in t
    ensures |seeds| <= |work| && work[..|seeds|] == seeds
    ensures forall i | 0 <= i < |work| :: work[i] in t
    ensures DepsLater(t, b, work, |work|)
    ensures FromEarlier(t, b, work, |seeds|, |work|)
    ensures |work| == ChainTotal(t, b, seeds, 0)
  {
    work := seeds;
    var i := 0;
    assert work[..|seeds|] == seeds;
    while i < |work|
      invariant ClosureState(t, b, seeds, work, i)
      decreases ChainTotal(t, b, work, i)
    {
      ClosureAdvance(t, b, seeds, work, i);
      var dep := Dependent(t, b, work[i]);
      if dep.Some? {
        work := work + [dep.value];
      }
      i := i + 1;
    }
  }

  /**
   * The closure loop before handling entry `i`: the seeds lead the list, every entry is a
   * node, the two shapes hold up to `i`, and the handled entries plus the chain total of
   * the rest make up the chain total of the seeds.
   */
  predicate ClosureState(t: Tree, b: Bindings, seeds: seq<NodeId>, work: seq<NodeId>, i: nat)
    requires Ranked(t, b)
  {
    && i <= |work| && |seeds| <= |work| && work[..|seeds|] == seeds
    && (forall k | 0 <= k < |work| :: work[k] in t)
    && DepsLater(t, b, work, i) && FromEarlier(t, b, work, |seeds|, i)
    && i + ChainTotal(t, b, work, i) == ChainTotal(t, b, seeds, 0)
  }

  /** One iteration of the closure loop keeps `ClosureState` and uses up one chain entry. */
  lemma ClosureAdvance(t: Tree, b: Bindings, seeds: seq<NodeId>, work: seq<NodeId>, i: nat)
    requires Ranked(t, b) && ClosureState(t, b, seeds, work, i) && i < |work|
    ensures var dep := Dependent(t, b, work[i]);
      var work' := if dep.Some? then work + [dep.value] else work;
      && ClosureState(t, b, seeds, work', i + 1)
      && ChainTotal(t, b, work', i + 1) < ChainTotal(t, b, work, i)
  {
    ClosureStep(t, b, work, |seeds|, i);
    ClosureProgress(t, b, work, i);
    var dep := Dependent(t, b, work[i]);
    if dep.Some? {
      assert (work + [dep.value])[..|seeds|] == work[..|seeds|];
    }
  }

  // ---------------------------------------------------------------------------------
  // Resolution (RequireTracer.cpp:189-230)

  /** The node kinds that take a resolved predecessor's info verbatim. */
  predicate CopiesContext(n: Node) {
    n.ExprLocal? || n.ExprGroup? || n.TypeGroup? || n.TypeTypeof? || n.ExprTypeAssertion?
  }

  /**
   * What a node resolves to, by recursion along its dependency chain: a resolved
   * predecessor's info is copied by locals, groups, `typeof` and type assertions; any other
   * expression is handed to the resolver with the predecessor's info (possibly absent), or
   * with the current module when it has no predecessor; a type node that cannot copy stays
   * unresolved.
   */
  function Resolved(t: Tree, b: Bindings, current: string, resolve: Resolver, n: NodeId): Option<ModuleInfo>
    requires Ranked(t, b) && n in t
    decreases n
  {
    match Dependent(t, b, n)
    case Some(d) =>
      var context := Resolved(t, b, current, resolve, d);
      if context.Some? && CopiesContext(t[n]) then context
      else if IsExpr(t[n]) then resolve(context, n)
      else None
    case None =>
      if IsExpr(t[n]) then resolve(Some(ModuleInfo(current, false)), n) else None
  }

  /** The node `k` dependency steps from `n`, if the chain is that long. */
  function DependencyAt(t: Tree, b: Bindings, n: NodeId, k: nat): (r: Option<NodeId>)
    requires Ranked(t, b) && n in t
    ensures r.Some? ==> r.value in t && r.value <= n
    decreases k
  {
    if k == 0 then Some(n)
    else match Dependent(t, b, n)
      case None => None
      case Some(d) => DependencyAt(t, b, d, k - 1)
  }

  /**
   * Copying propagates along a chain: when the first `k` nodes of `n`'s dependency chain
   * all copy their context and the node `k` steps on resolves, `n` resolves to the same
   * info. So `local a = <path>; local b = (a); require(b)` resolves the argument `b` to the
   * module `<path>` names.
   */
  lemma {:induction false} CopyChain(t: Tree, b: Bindings, current: string, resolve: Resolver, n: NodeId, k: nat)
    requires Ranked(t, b) && n in t
    requires forall i | 0 <= i < k :: DependencyAt(t, b, n, i).Some? && CopiesContext(t[DependencyAt(t, b, n, i).value])
    requires DependencyAt(t, b, n, k).Some?
    requires Resolved(t, b, current, resolve, DependencyAt(t, b, n, k).value).Some?
    ensures Resolved(t, b, current, resolve, n) == Resolved(t, b, current, resolve, DependencyAt(t, b, n, k).value)
    decreases k
  {
    if k > 0 {
      assert DependencyAt(t, b, n, 0) == Some(n);
      assert CopiesContext(t[n]);
      var d := Dependent(t, b, n).value;
      assert DependencyAt(t, b, n, k) == DependencyAt(t, b, d, k - 1);
      forall i | 0 <= i < k - 1
        ensures DependencyAt(t, b, d, i).Some? && CopiesContext(t[DependencyAt(t, b, d, i).value])
      {
        assert DependencyAt(t, b, n, i + 1) == DependencyAt(t, b, d, i);
      }
      CopyChain(t, b, current, resolve, d, k - 1);
    }
  }

  /**
   * The reverse pass over the work list: afterwards a node has an entry exactly when it is
   * in the work list and resolves, and the entry is what it resolves to.
   */
  method ResolvePass(t: Tree, b: Bindings, current: string, resolve: Resolver, work: seq<NodeId>)
    returns (exprs: map<NodeId, ModuleInfo>)
    requires Ranked(t, b)
    requires forall i | 0 <= i < |work| :: work[i] in t
    requires forall i | 0 <= i < |work| && Dependent(t, b, work[i]).Some? ::
      exists j :: i < j < |work| && work[j] == Dependent(t, b, work[i]).value
    ensures forall n :: n in exprs <==> n in work && Resolved(t, b, current, resolve, n).Some?
    ensures forall n | n in exprs :: Resolved(t, b, current, resolve, n) == Some(exprs[n])
  {
    var moduleContext := ModuleInfo(current, false);
    exprs := map[];
    var i := |work|;
    while i > 0
      invariant 0 <= i <= |work|
      invariant MemoFrom(t, b, current, resolve, work, exprs, i)
    {
      var expr := work[i - 1];
      MemoStep(t, b, current, resolve, work, exprs, i);
      if expr in exprs {
        assert exprs[expr := exprs[expr]] == exprs;
        i := i - 1;
        continue;
      }
      var info: Option<ModuleInfo>;
      var dep := Dependent(t, b, expr);
      if dep.Some? {
        var j :| i - 1 < j < |work| && work[j] == dep.value;
        var context := if dep.value in exprs then Some(exprs[dep.value]) else None;
        assert work[i..][j - i] == dep.value;
        MemoLookup(t, b, current, resolve, work, exprs, i, dep.value);
        if context.Some? && t[expr].ExprLocal? {
          info := context;
        } else if context.Some? && (t[expr].ExprGroup? || t[expr].TypeGroup?) {
          info := context;
        } else if context.Some? && (t[expr].TypeTypeof? || t[expr].ExprTypeAssertion?) {
          info := context;
        } else if IsExpr(t[expr]) {
          info := resolve(context, expr);
        } else {
          info := None;
        }
      } else if IsExpr(t[expr]) {
        info := resolve(Some(moduleContext), expr);
      } else {
        info := None;
      }
      assert info == Resolved(t, b, current, resolve, expr);
      if info.Some? {
        exprs := exprs[expr := info.value];
      }
      i := i - 1;
    }
    assert work[0..] == work;
  }

  /**
   * The memo after the pass has handled `work[i..]`: it holds exactly the resolving nodes of
   * that suffix, each with what it resolves to.
   */
  predicate MemoFrom(t: Tree, b: Bindings, current: string, resolve: Resolver,
                     work: seq<NodeId>, exprs: map<NodeId, ModuleInfo>, i: nat)
    requires Ranked(t, b) && i <= |work|
    requires forall k | 0 <= k < |work| :: work[k] in t
  {
    && (forall n | n in exprs :: n in t && n in work[i..] && Resolved(t, b, current, resolve, n) == Some(exprs[n]))
    && (forall k | i <= k < |work| && Resolved(t, b, current, resolve, work[k]).Some? :: work[k] in exprs)
  }

  /** Handling `work[i - 1]` records it exactly when it resolves. */
  lemma MemoStep(t: Tree, b: Bindings, current: string, resolve: Resolver,
                 work: seq<NodeId>, exprs: map<NodeId, ModuleInfo>, i: nat)
    requires Ranked(t, b) && 0 < i <= |work|
    requires forall k | 0 <= k < |work| :: work[k] in t
    requires MemoFrom(t, b, current, resolve, work, exprs, i)
    ensures var r := Resolved(t, b, current, resolve, work[i - 1]);
      MemoFrom(t, b, current, resolve, work, if r.Some? then exprs[work[i - 1] := r.value] else exprs, i - 1)
  {
    assert work[i - 1..] == [work[i - 1]] + work[i..];
  }

  /** A node of the handled suffix is looked up in the memo as what it resolves to. */
  lemma MemoLookup(t: Tree, b: Bindings, current: string, resolve: Resolver,
                   work: seq<NodeId>, exprs: map<NodeId, ModuleInfo>, i: nat, n: NodeId)
    requires Ranked(t, b) && i <= |work|
    requires forall k | 0 <= k < |work| :: work[k] in t
    requires MemoFrom(t, b, current, resolve, work, exprs, i)
    requires n in work[i..]
    ensures n in t
    ensures (if n in exprs then Some(exprs[n]) else None) == Resolved(t, b, current, resolve, n)
  {
    var k :| 0 <= k < |work[i..]| && work[i..][k] == n;
    assert work[i + k] == n;
  }

  // ---------------------------------------------------------------------------------
  // Assembly (RequireTracer.cpp:232-250)

  /** The argument of a recorded require call. */
  function ArgOf(t: Tree, c: NodeId): NodeId
    requires IsRequireCall(t, c)
  {
    t[c].args[0]
  }

  /**
   * No call's argument is a call recorded before it. A pre-order walk of a tree records a
   * call before the calls inside its argument, so this holds whenever nodes are not shared;
   * it keeps the overwrites of call entries from reaching a later call's lookup.
   */
  predicate NoEarlierCallArg(t: Tree, calls: seq<NodeId>)
    requires forall k | 0 <= k < |calls| :: IsRequireCall(t, calls[k])
  {
    forall j, k | 0 <= j < k < |calls| :: calls[j] != ArgOf(t, calls[k])
  }

  /** The require list calls `k..` give when each argument's info is looked up in `info`. */
  function Entries(t: Tree, calls: seq<NodeId>, info: NodeId -> Option<ModuleInfo>, k: nat): (r: seq<RequireEntry>)
    requires forall j | 0 <= j < |calls| :: IsRequireCall(t, calls[j])
    decreases |calls| - k
  {
    if k < |calls| then
      var c := calls[k];
      var i := info(ArgOf(t, c));
      (if i.Some? then [RequireEntry(i.value.name, t[c].location)] else []) + Entries(t, calls, info, k + 1)
    else []
  }

  /** What the assembly writes for call `c`: a copy of its argument's info, or the sentinel. */
  function CallEntry(t: Tree, c: NodeId, exprs: map<NodeId, ModuleInfo>): ModuleInfo
    requires IsRequireCall(t, c)
  {
    if ArgOf(t, c) in exprs then exprs[ArgOf(t, c)] else Unresolved
  }

  /** The lookup of a node's info in a memo table. */
  function InfoOf(exprs: map<NodeId, ModuleInfo>): NodeId -> Option<ModuleInfo> {
    (n: NodeId) => if n in exprs then Some(exprs[n]) else None
  }

  /** The require list built from calls `..k` completes, with the entries of the rest, to the full one. */
  predicate ListUpTo(t: Tree, calls: seq<NodeId>, exprs0: map<NodeId, ModuleInfo>, requireList: seq<RequireEntry>, k: nat)
    requires forall j | 0 <= j < |calls| :: IsRequireCall(t, calls[j])
  {
    requireList + Entries(t, calls, InfoOf(exprs0), k) == Entries(t, calls, InfoOf(exprs0), 0)
  }

  /** Calls `..k` hold their entries, and every other node of `exprs0` keeps its entry. */
  predicate TableUpTo(t: Tree, calls: seq<NodeId>, exprs0: map<NodeId, ModuleInfo>, exprs: map<NodeId, ModuleInfo>, k: nat)
    requires forall j | 0 <= j < |calls| :: IsRequireCall(t, calls[j])
    requires k <= |calls|
  {
    && (forall j | 0 <= j < k :: calls[j] in exprs && exprs[calls[j]] == CallEntry(t, calls[j], exprs0))
    && (forall n | n in exprs0 && n !in calls[..k] :: n in exprs && exprs[n] == exprs0[n])
  }

  /**
   * The state after assembling calls `..k` from the memo `exprs0` when no argument is an
   * earlier call: the list so far completes to the full one, those calls hold their entries,
   * and every other node keeps its entry.
   */
  predicate AssembledUpTo(t: Tree, calls: seq<NodeId>, exprs0: map<NodeId, ModuleInfo>,
                          exprs: map<NodeId, ModuleInfo>, requireList: seq<RequireEntry>, k: nat)
    requires forall j | 0 <= j < |calls| :: IsRequireCall(t, calls[j])
    requires k <= |calls|
  {
    ListUpTo(t, calls, exprs0, requireList, k) && TableUpTo(t, calls, exprs0, exprs, k)
  }

  /** A call's argument is none of the calls before it, so its entry is still the original. */
  lemma ArgUntouched(t: Tree, calls: seq<NodeId>, exprs0: map<NodeId, ModuleInfo>,
                     exprs: map<NodeId, ModuleInfo>, k: nat)
    requires forall j | 0 <= j < |calls| :: IsRequireCall(t, calls[j])
    requires k < |calls| && NoEarlierCallArg(t, calls)
    requires TableUpTo(t, calls, exprs0, exprs, k)
    requires forall n | n in exprs :: n in exprs0 || n in calls[..k]
    ensures InfoOf(exprs)(ArgOf(t, calls[k])) == InfoOf(exprs0)(ArgOf(t, calls[k]))
  {
    var arg := ArgOf(t, calls[k]);
    assert arg !in calls[..k] by {
      forall j | 0 <= j < k ensures calls[..k][j] != arg {
        assert calls[j] != ArgOf(t, calls[k]);
      }
    }
  }

  /** Appending call `k`'s entry, when its argument is looked up as in `exprs0`, keeps `ListUpTo`. */
  lemma ListStep(t: Tree, calls: seq<NodeId>, exprs0: map<NodeId, ModuleInfo>, info: Option<ModuleInfo>,
                 requireList: seq<RequireEntry>, k: nat)
    requires forall j | 0 <= j < |calls| :: IsRequireCall(t, calls[j])
    requires k < |calls| && ListUpTo(t, calls, exprs0, requireList, k)
    requires info == InfoOf(exprs0)(ArgOf(t, calls[k]))
    ensures var list' := if info.Some? then requireList + [RequireEntry(info.value.name, t[calls[k]].location)] else requireList;
      ListUpTo(t, calls, exprs0, list', k + 1)
  {
    var head := if info.Some? then [RequireEntry(info.value.name, t[calls[k]].location)] else [];
    var rest := Entries(t, calls, InfoOf(exprs0), k + 1);
    assert Entries(t, calls, InfoOf(exprs0), k) == head + rest;
    assert requireList + (head + rest) == (requireList + head) + rest;
  }

  /** Writing call `k`'s entry, when its argument is looked up as in `exprs0`, keeps `TableUpTo`. */
  lemma TableStep(t: Tree, calls: seq<NodeId>, exprs0: map<NodeId, ModuleInfo>, exprs: map<NodeId, ModuleInfo>, k: nat)
    requires forall j | 0 <= j < |calls| :: IsRequireCall(t, calls[j])
    requires k < |calls| && TableUpTo(t, calls, exprs0, exprs, k)
    requires CallEntry(t, calls[k], exprs) == CallEntry(t, calls[k], exprs0)
    ensures TableUpTo(t, calls, exprs0, exprs[calls[k] := CallEntry(t, calls[k], exprs)], k + 1)
  {
    var c := calls[k];
    var e' := exprs[c := CallEntry(t, c, exprs)];
    assert calls[..k + 1] == calls[..k] + [c];
    forall j | 0 <= j < k + 1 ensures calls[j] in e' && e'[calls[j]] == CallEntry(t, calls[j], exprs0) {
      if calls[j] != c {
        assert e'[calls[j]] == exprs[calls[j]];
      }
    }
  }

  /**
   * The table after writing calls `..k`: those calls have entries, every entry is an original
   * one or a written call's, and the original entries of nodes that are not calls remain.
   */
  predicate KeysUpTo(calls: seq<NodeId>, exprs0: map<NodeId, ModuleInfo>, exprs: map<NodeId, ModuleInfo>, k: nat)
    requires k <= |calls|
  {
    && (forall j | 0 <= j < k :: calls[j] in exprs)
    && (forall n | n in exprs :: n in exprs0 || n in calls[..k])
    && (forall n | n in exprs0 && n !in calls :: n in exprs && exprs[n] == exprs0[n])
  }

  lemma KeysStep(calls: seq<NodeId>, exprs0: map<NodeId, ModuleInfo>, exprs: map<NodeId, ModuleInfo>, k: nat, entry: ModuleInfo)
    requires k < |calls| && KeysUpTo(calls, exprs0, exprs, k)
    ensures KeysUpTo(calls, exprs0, exprs[calls[k] := entry], k + 1)
  {
    assert calls[..k + 1] == calls[..k] + [calls[k]];
  }

  /** One iteration of the assembly loop keeps `AssembledUpTo`, given the entry it writes. */
  lemma AssembleStep(t: Tree, calls: seq<NodeId>, exprs0: map<NodeId, ModuleInfo>,
                     exprs: map<NodeId, ModuleInfo>, requireList: seq<RequireEntry>, k: nat,
                     entry: ModuleInfo, list': seq<RequireEntry>)
    requires forall j | 0 <= j < |calls| :: IsRequireCall(t, calls[j])
    requires k < |calls| && NoEarlierCallArg(t, calls)
    requires AssembledUpTo(t, calls, exprs0, exprs, requireList, k) && KeysUpTo(calls, exprs0, exprs, k)
    requires entry == CallEntry(t, calls[k], exprs)
    requires list' == if ArgOf(t, calls[k]) in exprs
      then requireList + [RequireEntry(exprs[ArgOf(t, calls[k])].name, t[calls[k]].location)]
      else requireList
    ensures AssembledUpTo(t, calls, exprs0, exprs[calls[k] := entry], list', k + 1)
  {
    ArgUntouched(t, calls, exprs0, exprs, k);
    ListStep(t, calls, exprs0, InfoOf(exprs)(ArgOf(t, calls[k])), requireList, k);
    TableStep(t, calls, exprs0, exprs, k);
  }

  /** The assembly loop from call `k` on, with the table and list built so far. */
  function AssembleFrom(t: Tree, calls: seq<NodeId>, exprs: map<NodeId, ModuleInfo>, requireList: seq<RequireEntry>, k: nat)
    : (map<NodeId, ModuleInfo>, seq<RequireEntry>)
    requires forall j | 0 <= j < |calls| :: IsRequireCall(t, calls[j])
    decreases |calls| - k
  {
    if k >= |calls| then (exprs, requireList)
    else
      var c := calls[k];
      var arg := ArgOf(t, c);
      if arg in exprs then
        AssembleFrom(t, calls, exprs[c := exprs[arg]], requireList + [RequireEntry(exprs[arg].name, t[c].location)], k + 1)
      else
        AssembleFrom(t, calls, exprs[c := Unresolved], requireList, k + 1)
  }

  /** Every call gets an entry, every entry is an original one or a call's, and no other entry changes. */
  lemma {:induction false} AssembleFromKeys(t: Tree, calls: seq<NodeId>, exprs0: map<NodeId, ModuleInfo>,
                                            exprs: map<NodeId, ModuleInfo>, requireList: seq<RequireEntry>, k: nat)
    requires forall j | 0 <= j < |calls| :: IsRequireCall(t, calls[j])
    requires k <= |calls| && KeysUpTo(calls, exprs0, exprs, k)
    ensures KeysUpTo(calls, exprs0, AssembleFrom(t, calls, exprs, requireList, k).0, |calls|)
    decreases |calls| - k
  {
    if k < |calls| {
      var c := calls[k];
      var arg := ArgOf(t, c);
      var entry := CallEntry(t, c, exprs);
      var list' := if arg in exprs then requireList + [RequireEntry(exprs[arg].name, t[c].location)] else requireList;
      KeysStep(calls, exprs0, exprs, k, entry);
      assert AssembleFrom(t, calls, exprs, requireList, k) == AssembleFrom(t, calls, exprs[c := entry], list', k + 1);
      AssembleFromKeys(t, calls, exprs0, exprs[c := entry], list', k + 1);
    }
  }

  /**
   * When no argument is an earlier call, the require list holds, in call order, each call
   * whose argument had an entry, and each call's entry is its argument's or the sentinel.
   */
  lemma {:induction false} AssembleFromEntries(t: Tree, calls: seq<NodeId>, exprs0: map<NodeId, ModuleInfo>,
                                               exprs: map<NodeId, ModuleInfo>, requireList: seq<RequireEntry>, k: nat)
    requires forall j | 0 <= j < |calls| :: IsRequireCall(t, calls[j])
    requires k <= |calls| && NoEarlierCallArg(t, calls)
    requires KeysUpTo(calls, exprs0, exprs, k) && AssembledUpTo(t, calls, exprs0, exprs, requireList, k)
    ensures var r := AssembleFrom(t, calls, exprs, requireList, k);
      AssembledUpTo(t, calls, exprs0, r.0, r.1, |calls|)
    decreases |calls| - k
  {
    if k < |calls| {
      var c := calls[k];
      var arg := ArgOf(t, c);
      var entry := CallEntry(t, c, exprs);
      var list' := if arg in exprs then requireList + [RequireEntry(exprs[arg].name, t[c].location)] else requireList;
      KeysStep(calls, exprs0, exprs, k, entry);
      AssembleStep(t, calls, exprs0, exprs, requireList, k, entry, list');
      assert AssembleFrom(t, calls, exprs, requireList, k) == AssembleFrom(t, calls, exprs[c := entry], list', k + 1);
      AssembleFromEntries(t, calls, exprs0, exprs[c := entry], list', k + 1);
    }
  }

  /**
   * The assembly loop. Every call gets an entry and no other entry changes. When no
   * argument is an earlier call, the require list holds, in call order, each call whose
   * argument had an entry, and each call's entry is its argument's or the empty sentinel.
   */
  method Assemble(t: Tree, calls: seq<NodeId>, exprs0: map<NodeId, ModuleInfo>)
    returns (exprs: map<NodeId, ModuleInfo>, requireList: seq<RequireEntry>)
    requires forall k | 0 <= k < |calls| :: IsRequireCall(t, calls[k])
    ensures forall k | 0 <= k < |calls| :: calls[k] in exprs
    ensures forall n | n in exprs :: n in exprs0 || n in calls
    ensures forall n | n in exprs0 && n !in calls :: n in exprs && exprs[n] == exprs0[n]
    ensures NoEarlierCallArg(t, calls) ==> requireList == Entries(t, calls, InfoOf(exprs0), 0)
    ensures NoEarlierCallArg(t, calls) ==>
      forall k | 0 <= k < |calls| :: exprs[calls[k]] == CallEntry(t, calls[k], exprs0)
  {
    exprs := exprs0;
    requireList := [];
    var k := 0;
    while k < |calls|
      invariant k <= |calls|
      invariant AssembleFrom(t, calls, exprs, requireList, k) == AssembleFrom(t, calls, exprs0, [], 0)
    {
      var require := calls[k];
      var arg := ArgOf(t, require);
      if arg in exprs {
        var info := exprs[arg];
        requireList := requireList + [RequireEntry(info.name, t[require].location)];
        exprs := exprs[require := info];
      } else {
        exprs := exprs[require := Unresolved];
      }
      k := k + 1;
    }
    AssemblyStart(t, calls, exprs0);
    AssembleFromKeys(t, calls, exprs0, exprs0, [], 0);
    assert calls[..|calls|] == calls;
    if NoEarlierCallArg(t, calls) {
      AssembleFromEntries(t, calls, exprs0, exprs0, [], 0);
      assert Entries(t, calls, InfoOf(exprs0), |calls|) == [];
      assert requireList + [] == requireList;
    }
  }

  /** Before the first call, the table is the memo and the list is empty. */
  lemma AssemblyStart(t: Tree, calls: seq<NodeId>, exprs0: map<NodeId, ModuleInfo>)
    requires forall j | 0 <= j < |calls| :: IsRequireCall(t, calls[j])
    ensures KeysUpTo(calls, exprs0, exprs0, 0)
    ensures AssembledUpTo(t, calls, exprs0, exprs0, [], 0)
  {
    assert calls[..0] == [];
    assert [] + Entries(t, calls, InfoOf(exprs0), 0) == Entries(t, calls, InfoOf(exprs0), 0);
  }

  // ---------------------------------------------------------------------------------
  // traceRequires (RequireTracer.cpp:263-270)

  /**
   * Traces the requires of the module rooted at `root`. Every recorded call gets an entry;
   * every other entry is what its node resolves to. When no argument is an earlier call,
   * the require list holds exactly the calls whose argument resolves, in call order, with
   * that module name and the call's location, and each call's entry is its argument's info
   * or the empty sentinel.
   */
  method TraceRequires(t: Tree, root: NodeId, current: string, resolve: Resolver) returns (result: TraceResult)
    requires WellFormed(t) && root in t
    requires Ranked(t, TracedBindings(t, root))
    ensures forall k | 0 <= k < |TracedCalls(t, root)| :: TracedCalls(t, root)[k] in result.exprs
    ensures forall n | n in result.exprs && n !in TracedCalls(t, root) ::
      ResolveIn(t, TracedBindings(t, root), current, resolve, n) == Some(result.exprs[n])
    ensures forall k, d | 0 <= k < |TracedCalls(t, root)| && ArgChain(t, TracedBindings(t, root), TracedCalls(t, root)[k], d).Some? ::
      var n := ArgChain(t, TracedBindings(t, root), TracedCalls(t, root)[k], d).value;
      n !in TracedCalls(t, root) ==> (n in result.exprs <==> ResolveIn(t, TracedBindings(t, root), current, resolve, n).Some?)
    ensures NoEarlierCallArg(t, TracedCalls(t, root)) ==>
      (result.requireList == Entries(t, TracedCalls(t, root), (n: NodeId) => ResolveIn(t, TracedBindings(t, root), current, resolve, n), 0))
    ensures NoEarlierCallArg(t, TracedCalls(t, root)) ==>
      (forall k | 0 <= k < |TracedCalls(t, root)| ::
        result.exprs[TracedCalls(t, root)[k]]
        == ResolveIn(t, TracedBindings(t, root), current, resolve, ArgOf(t, TracedCalls(t, root)[k])).GetOr(Unresolved))
  {
    var calls := TracedCalls(t, root);
    var b := TracedBindings(t, root);
    forall k | 0 <= k < |calls| ensures ArgOf(t, calls[k]) in t {
      ChildBelow(t, calls[k], ArgOf(t, calls[k]));
    }
    var seeds := seq(|calls|, k requires 0 <= k < |calls| => ArgOf(t, calls[k]));
    var work := Closure(t, b, seeds);
    var exprs := ResolvePass(t, b, current, resolve, work);
    forall k | 0 <= k < |calls| ensures ArgOf(t, calls[k]) in work {
      assert work[k] == seeds[k];
    }
    var exprs', requireList := Assemble(t, calls, exprs);
    result := TraceResult(exprs', requireList);
    MemoIsResolution(t, b, current, resolve, calls, work, exprs);
    forall n | n in exprs' && n !in calls
      ensures ResolveIn(t, b, current, resolve, n) == Some(exprs'[n])
    {
      assert n in exprs && n in work;
    }
    forall k, d | 0 <= k < |calls| && ArgChain(t, b, calls[k], d).Some?
      ensures var n := ArgChain(t, b, calls[k], d).value;
        n !in calls ==> (n in exprs' <==> ResolveIn(t, b, current, resolve, n).Some?)
    {
      ChainInWork(t, b, work, ArgOf(t, calls[k]), d);
    }
    if NoEarlierCallArg(t, calls) {
      EntriesAgree(t, calls, InfoOf(exprs), (n: NodeId) => ResolveIn(t, b, current, resolve, n), 0);
    }
  }

  /** The node `d` dependency steps from the argument of the call `c`, if the chain is that long. */
  function ArgChain(t: Tree, b: Bindings, c: NodeId, d: nat): (r: Option<NodeId>)
    requires Ranked(t, b) && IsRequireCall(t, c)
  {
    if ArgOf(t, c) in t then DependencyAt(t, b, ArgOf(t, c), d) else None
  }

  /** A work list that holds every entry's dependency holds the whole chain of each entry. */
  lemma {:induction false} ChainInWork(t: Tree, b: Bindings, work: seq<NodeId>, n: NodeId, d: nat)
    requires Ranked(t, b) && forall k | 0 <= k < |work| :: work[k] in t
    requires DepsLater(t, b, work, |work|) && n in work
    ensures DependencyAt(t, b, n, d).Some? ==> DependencyAt(t, b, n, d).value in work
    decreases d
  {
    if d > 0 && Dependent(t, b, n).Some? {
      var i :| 0 <= i < |work| && work[i] == n;
      var j :| i < j < |work| && work[j] == Dependent(t, b, n).value;
      ChainInWork(t, b, work, work[j], d - 1);
    }
  }

  /**
   * A memo holding exactly the resolving nodes of a work list, with their resolution, looks
   * up every call argument in the list as its resolution.
   */
  lemma MemoIsResolution(t: Tree, b: Bindings, current: string, resolve: Resolver,
                         calls: seq<NodeId>, work: seq<NodeId>, exprs: map<NodeId, ModuleInfo>)
    requires Ranked(t, b)
    requires forall j | 0 <= j < |calls| :: IsRequireCall(t, calls[j]) && ArgOf(t, calls[j]) in work
    requires forall i | 0 <= i < |work| :: work[i] in t
    requires forall n :: n in exprs <==> n in work && Resolved(t, b, current, resolve, n).Some?
    requires forall n | n in exprs :: Resolved(t, b, current, resolve, n) == Some(exprs[n])
    ensures forall j | 0 <= j < |calls| ::
      InfoOf(exprs)(ArgOf(t, calls[j])) == ResolveIn(t, b, current, resolve, ArgOf(t, calls[j]))
    ensures forall j | 0 <= j < |calls| ::
      CallEntry(t, calls[j], exprs) == ResolveIn(t, b, current, resolve, ArgOf(t, calls[j])).GetOr(Unresolved)
  {
    forall j | 0 <= j < |calls|
      ensures InfoOf(exprs)(ArgOf(t, calls[j])) == ResolveIn(t, b, current, resolve, ArgOf(t, calls[j]))
    {
      var arg := ArgOf(t, calls[j]);
      assert arg in t;
    }
  }

  /** `Resolved` on present nodes; an absent node resolves to nothing. */
  function ResolveIn(t: Tree, b: Bindings, current: string, resolve: Resolver, n: NodeId): Option<ModuleInfo>
    requires Ranked(t, b)
  {
    if n in t then Resolved(t, b, current, resolve, n) else None
  }

  /** Two lookups that agree on every argument give the same require list. */
  lemma {:induction false} EntriesAgree(t: Tree, calls: seq<NodeId>, f: NodeId -> Option<ModuleInfo>, g: NodeId -> Option<ModuleInfo>, k: nat)
    requires forall j | 0 <= j < |calls| :: IsRequireCall(t, calls[j])
    requires forall j | 0 <= j < |calls| :: f(ArgOf(t, calls[j])) == g(ArgOf(t, calls[j]))
    ensures Entries(t, calls, f, k) == Entries(t, calls, g, k)
    decreases |calls| - k
  {
    if k < |calls| {
      EntriesAgree(t, calls, f, g, k + 1);
    }
  }
}
