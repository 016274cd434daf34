# Luau require tracing, test file resolution and type utilities in Dafny

This project models, in Dafny, the part of Luau that finds and resolves the `require(...)`
calls of a module before type checking. It also models the type-graph utilities that this
part and the type simplifier rely on.

- **`require_tracer.dfy`** (`RequireTracer`) is the require tracer. One pre-order walk of
  the syntax tree records the `require` calls and the initializer of every local. A work
  list seeded with the require arguments is then closed under "the node this one depends
  on". A reverse pass memoises a `ModuleInfo` per node, and the require list is assembled
  from the memo. The tracer is proved against `Resolved`, a recursive reference definition
  along dependency chains.
- **`custom_testing.dfy`** (`CustomTesting`) holds the test-harness resolvers:
  - `parsePathExpr` and `pathExprToModuleName`, which turn `script.Parent.A` into a
    `/`-separated module name;
  - the `TestFileResolver` policy for `game`, `workspace`, `script`, `.Parent`, `.X`,
    `["X"]` and `game:GetService("S")`;
  - the in-memory lookups of sources, environments and configs.

  It also proves that the tracer, plugged into this resolver, agrees with
  `pathExprToModuleName` on `script.A.B...` paths.
- **`ast.dfy`** (`Ast`) is the fragment of the syntax tree these two components inspect. A
  tree is a map from node ids to nodes, and children have smaller ids.
- **`chains.dfy`** (`Chains`) is the tortoise-and-hare `follow` loop shared by types and
  type packs. It is proved equal to a bounded-walk reference definition, cycles included.
- **`types.dfy`** (`Types`) covers the type utilities of Type.cpp:
  - `follow`, `flattenIntersection`, the union predicates and `isSubset`;
  - property constructors;
  - the extern-class walks `isSubclass`, `lookupExternTypeProp` and `hasTag`.
- **`simplify.dfy`** (`Simplify`) covers the relation lattice and `relate` of the type
  simplifier, `intersectOne` and `subtractOne`, `simplify`, and the atom-level paths of
  `intersect` and `union_`.
- **`typepacks.dfy`** (`TypePacks`) covers type packs: `follow`, the pack iterator,
  `flatten`, `size`, `finite`, `first`, `isEmpty`, `isVariadic`, `containsNever` and
  `getTail`.
- **`operand_x64.dfy`** (`OperandX64`) covers the x64 operand builders of the code
  generator. Each is proved to compute the effective address its syntax promises.
- **`options.dfy`** (`Options`) is the `Option` datatype used throughout.

The file resolver that the tracer consults is a function parameter (`RequireTracer.Resolver`).
`CustomTesting.Resolver` instantiates it with the test policy.

## Model

| member | source | states |
|---|---|---|
| RequireTracer.VisitedChildren | Analysis/src/RequireTracer.cpp:28-32 | the walk enters every child of any node except a type assertion; beneath `expr :: T` nothing is visited, so `require(x) :: any` is never recorded |
| RequireTracer.RequireCalls | Analysis/src/RequireTracer.cpp:34-42 | a node is recorded exactly when it is a call of the global `require` with at least one argument, in walk order |
| RequireTracer.BindingsAreLastWrites | Analysis/src/RequireTracer.cpp:44-71 | after the walk, a local's entry is what the last statement touching it wrote: the initializer of its last `local` slot (only slots that have a value), or null after an assignment to it; untouched entries are unchanged |
| RequireTracer.BindEffect | Analysis/src/RequireTracer.cpp:44-71 | visiting one `local` or assignment statement writes exactly the entries it names and leaves every other local's entry alone |
| RequireTracer.StructuralRanked | Analysis/src/RequireTracer.cpp:101-152 | every dependency edge of `getDependent` other than local-to-initializer is a child edge, so the dependency graph is acyclic as soon as each local's initializer precedes its uses |
| RequireTracer.Dependent | Analysis/src/RequireTracer.cpp:101-152 | `getDependent`: a local's binding, the object of a named or computed index or of a method call's callee, a group's inner expression, a type assertion's annotation, a type group's type, or a `typeof` argument; `StructuralRanked` states that every edge but local-to-initializer goes to a child |
| RequireTracer.Closure | Analysis/src/RequireTracer.cpp:166-187 | the work list starts with the require arguments in call order; every entry's dependency occurs later in it; every entry past the seeds is the dependency of an earlier one; its length is the total length of the seeds' dependency chains |
| RequireTracer.ClosureAdvance | Analysis/src/RequireTracer.cpp:173-187 | one iteration of the growing-list loop keeps the work list's shape and uses up one entry of the remaining chains, which is why the loop terminates |
| RequireTracer.ResolvePass | Analysis/src/RequireTracer.cpp:189-230 | after the reverse pass, a node has an entry exactly when it is in the work list and resolves, and its entry is the reference resolution: locals, groups, `typeof` and type assertions copy a resolved dependency, other expressions go to the resolver with the dependency's info (possibly absent) or with the current module |
| RequireTracer.CopyChain | Analysis/src/RequireTracer.cpp:208-215 | a chain of copying nodes (locals, groups, `typeof`, assertions) passes a resolved info through unchanged, so `local a = <path>; local b = (a); require(b)` resolves `b` to the module `<path>` names |
| RequireTracer.MemoStep | Analysis/src/RequireTracer.cpp:190-230 | handling work entry `i - 1` records it exactly when it resolves, and keeps the memo equal to the resolution of the handled suffix; repeated entries are skipped because they are already recorded |
| RequireTracer.Assemble | Analysis/src/RequireTracer.cpp:232-250 | every require call gets an entry and no other entry changes; when no argument is an earlier call, the require list holds, in call order, the module name and location of each call whose argument has an entry, and each call's entry is a copy of its argument's info or the empty "unresolved" info |
| RequireTracer.AssembleFromEntries | Analysis/src/RequireTracer.cpp:235-250 | the assembly loop from call `k` on completes the list built so far to the full require list and writes each remaining call's entry |
| RequireTracer.EntriesAgree | Analysis/src/RequireTracer.cpp:235-250 | the require list depends only on how each call's argument is looked up |
| RequireTracer.TraceRequires | Analysis/src/RequireTracer.cpp:263-270 | every recorded call gets an entry; every other entry is what its node resolves to; a node on the dependency chain of a call's argument that is not itself a call has an entry exactly when it resolves; the require list and each call's entry are the arguments' resolutions, in call order (see Left out for the hypothesis) |
| RequireTracer.ChainInWork | Analysis/src/RequireTracer.cpp:166-187 | a work list that holds every entry's dependency holds the whole dependency chain of each of its entries |
| RequireTracer.MemoIsResolution | Analysis/src/RequireTracer.cpp:239-248 | a memo holding exactly the resolving work entries looks every call argument up as its resolution |
| CustomTesting.ParsePathExpr | CLI/src/CustomTesting.cpp:15-47 | a non-empty result comes only from a named index, has at least two names and ends with that index's name; anything but a named index gives no names |
| CustomTesting.ParsePathTree | CLI/src/CustomTesting.cpp:15-47 | on the chain `root.n1.n2...nk`, `parsePathExpr` recovers `[root, n1, ..., nk]`, root first |
| CustomTesting.PathChainOfTree | CLI/src/CustomTesting.cpp:23-46 | the walk up a chain of named indexings collects every name and the root global, reversed into root-first order |
| CustomTesting.PathExprToModuleName | CLI/src/CustomTesting.cpp:50-74 | the module name is absent exactly when there are no segments |
| CustomTesting.WalkParent | CLI/src/CustomTesting.cpp:65-71 | `Parent` drops the last piece while more than one piece is held, and is kept as a literal piece otherwise |
| CustomTesting.WalkWithoutParent | CLI/src/CustomTesting.cpp:65-71 | without `Parent` segments the walk appends every segment |
| CustomTesting.GlobalPath | CLI/src/CustomTesting.cpp:50-74 | a path from a global other than `script` (or from `script` in an unnamed module), without `Parent`, names its segments joined by `/` |
| CustomTesting.ScriptPath | CLI/src/CustomTesting.cpp:57-73 | `script.A.B` in module `m` names `m/A/B`: the current name is split into pieces and rejoined with the new ones |
| CustomTesting.JoinSplit | CLI/src/CustomTesting.cpp:61-73 | joining the split pieces of a name that does not end in `/` gives the name back |
| CustomTesting.SplitJoin | CLI/src/CustomTesting.cpp:61-73 | splitting the join of separator-free pieces, the last one non-empty, gives the pieces back |
| CustomTesting.ResolveModuleInfo | CLI/src/CustomTesting.cpp:113-119 | resolves exactly when the expression parses as a path, to the non-optional module that `pathExprToModuleName` names |
| CustomTesting.ReadSource | CLI/src/CustomTesting.cpp:133-146 | a source is returned exactly when the module exists; its text is the stored one, and its type is the recorded one or `Module` by default |
| CustomTesting.GlobalRoots | CLI/src/CustomTesting.cpp:150-158 | `game` and `workspace` name themselves, `script` is the context, and every other global is unresolved |
| CustomTesting.ResolveModule | CLI/src/CustomTesting.cpp:148-195 | `TestFileResolver::resolveModule`; `GlobalRoots`, `ParentStripsLastPiece`, `ParentOfChild`, `IndexForms` and `GetService` state its cases |
| CustomTesting.ParentStripsLastPiece | CLI/src/CustomTesting.cpp:159-170 | `.Parent` fails exactly when the context name has no `/`; otherwise it keeps the optional flag, and its name plus `/` plus a separator-free last piece is the context name |
| CustomTesting.ParentOfChild | CLI/src/CustomTesting.cpp:159-175 | `.Parent` undoes `.X` for a separator-free `X` |
| CustomTesting.IndexForms | CLI/src/CustomTesting.cpp:171-182 | `ctx.X` (X not `Parent`) and `ctx["X"]` name the same module, and neither resolves without a context |
| CustomTesting.GetService | CLI/src/CustomTesting.cpp:183-194 | a call resolves only as a method call `:GetService("S")` on the context `game`, to the non-optional `game/S` |
| CustomTesting.TracerAgreesWithPath | CLI/src/CustomTesting.cpp:148-195 | the tracer with the test resolver resolves every prefix of `script.A.B...` (no `Parent`) in module `m` to `m/A/B...`, the same module `resolveModuleInfo` gives |
| CustomTesting.GetHumanReadableModuleName | CLI/src/CustomTesting.cpp:197-210 | the result has the name's length and characters, with every `/` replaced by `.` |
| CustomTesting.HumanReadableIdempotent | CLI/src/CustomTesting.cpp:197-210 | a readable name has no `/` left, so making it readable again changes nothing |
| CustomTesting.GetEnvironmentForModule | CLI/src/CustomTesting.cpp:212-219 | an environment is returned exactly when one is registered for the module, and it is that one |
| CustomTesting.GetConfig | CLI/src/CustomTesting.cpp:221-228 | a module gets its own config when it has one, and the default config otherwise |
| CustomTesting.GetConfigOverride | CLI/src/CustomTesting.cpp:221-228 | registering a config for one module changes what that module gets and nothing else |
| Chains.Follow | Analysis/src/Type.cpp:84-137 | the tortoise-and-hare loop returns the end of the chain, or reports the cycle error exactly when the chain never ends, in agreement with the bounded-walk reference |
| Chains.TortoiseBound | Analysis/src/Type.cpp:109-136 | the loop stops: a finite chain ends at a node without successor, and on an infinite one the tortoise meets the hare (x_i = x_(2i+1)) |
| Chains.FollowIdempotent | Analysis/src/Type.cpp:84-137 | following the end of a chain stays there |
| Chains.SpecNoneIffInfinite | Analysis/src/Type.cpp:84-137 | the reference reports a cycle exactly when the chain never ends |
| Types.FollowType | Analysis/src/Type.cpp:84-137 | `follow` on bound types returns a type with no bound successor, on the chain, the input itself when it is not bound, a fixed point, and fails exactly on an endless chain |
| Types.FollowFixed | Analysis/src/Type.cpp:84-137 | following a followed type stays put |
| Types.FollowAny | Analysis/src/Type.cpp:84-137 | `follow` as a function on any closed store: a result is a non-bound type of the store, a type that is not bound is its own result, and None is the cycle error; `FollowAnyWellFounded` ties it to `Follow` |
| Types.FollowAnyWellFounded | Analysis/src/Type.cpp:84-137 | on a well-founded store `follow` never fails and returns the end of the bound chain |
| Types.FlattenIntersection | Analysis/src/Type.cpp:139-169 | a type that does not follow to an intersection is returned alone; otherwise the result holds, each once, exactly the followed non-intersection types reachable through nested intersection parts, and lists them in the breadth-first order `BreadthFirst`: level by level, each level in queue order, a type seen on an earlier level or earlier in its own level skipped |
| Types.BreadthFirstHead | Analysis/src/Type.cpp:139-169 | the flattened intersection starts with the first part of the top intersection, in the order listed, that does not follow to an intersection |
| Types.NestedStoreHead | Analysis/src/Type.cpp:139-169 | `(number & string) & nil` flattens with `nil` first, although the nested intersection is listed before it |
| Types.UnionPartsAreLeaves | Analysis/src/Simplify.cpp:436-442 | the union iterator visits exactly the leaves below the union, at any depth of nesting |
| Types.UnionPartsAll | Analysis/src/Type.cpp:182-251 | every type the union iterator visits satisfies a predicate exactly when every leaf of the union does, which is what the union predicates ask |
| Types.UnionParts | Analysis/src/Simplify.cpp:433-444 | every type the union iterator yields is in the store and does not follow to a union; `UnionPartsAreLeaves` states which ones |
| Types.WalkOptions | Analysis/src/Simplify.cpp:433-444 | the union iterator on any store, cyclic unions included: it ends because each union is entered at most once, only adds to what it has yielded and entered, and yields only types that follow to non-unions |
| Types.UnionWalk | Analysis/src/Simplify.cpp:433-444 | what the iterator visits on any closed store, or the cycle error of `follow`; every visited type follows to a non-union |
| Types.WalkAgrees | Analysis/src/Simplify.cpp:433-444 | on a well-founded store the any-store walk never fails and equals the depth-first walk `IterateOptions` |
| Types.UnionWalkAgrees | Analysis/src/Simplify.cpp:433-444 | on a well-founded store the iterator succeeds with exactly `UnionParts` |
| Types.SelfUnionWalk | tests/Simplify.test.cpp:613-621 | for `t1 = t1 \| never` the iterator skips the union's re-entry into itself and visits only `never` |
| Types.BoundCycleWalk | Analysis/src/Type.cpp:109-136 | a union whose option follows into a cycle of bound types fails with the cycle error |
| Types.IsString | Analysis/src/Type.cpp:199-210 | `isString`: a string primitive or singleton, or a union all of whose leaves are; `IsStringUnion` states the union case over the iterator's parts |
| Types.IsBoolean | Analysis/src/Type.cpp:182-191 | `isBoolean`: a boolean primitive or singleton, or a union all of whose leaves are; partner `IsBooleanUnion` |
| Types.MaybeString | Analysis/src/Type.cpp:213-224 | `maybeString`: string or `any`, or a union some leaf of which is; partner `MaybeStringUnion` |
| Types.IsOptional | Analysis/src/Type.cpp:236-251 | `isOptional`: nil, `any` or `unknown`, or a union some leaf of which is; partner `IsOptionalUnion` |
| Types.IsStringUnion | Analysis/src/Type.cpp:199-210 | a union is a string subtype exactly when every option is |
| Types.IsBooleanUnion | Analysis/src/Type.cpp:182-191 | a union is boolean exactly when every option is |
| Types.MaybeStringUnion | Analysis/src/Type.cpp:213-224 | a union may be a string supertype exactly when some option may |
| Types.IsOptionalUnion | Analysis/src/Type.cpp:236-251 | a union is optional exactly when some option is |
| Types.LeafOfNonUnion | Analysis/src/Type.cpp:182-251 | for a type that does not follow to a union, the four predicates look only at the followed type itself |
| Types.IsSubset | Analysis/src/Type.cpp:364-378 | true exactly when every option of `sub` is, by identity, an option of `super` |
| Types.Readonly | Analysis/src/Type.cpp:675-680 | a read-only property whose read type is the given type |
| Types.Writeonly | Analysis/src/Type.cpp:682-687 | a write-only property whose write type is the given type |
| Types.Rw | Analysis/src/Type.cpp:689-700 | both sides are present, with the given types, and the property is shared exactly when they are the same type |
| Types.Create | Analysis/src/Type.cpp:702-713 | the property has exactly the given sides, and it is read-only, write-only or read-write |
| Types.MakeShared | Analysis/src/Type.cpp:731-735 | the write type, when present, becomes the read type; a shared property is unchanged |
| Types.PresencePartition | Analysis/src/Type.cpp:737-755 | read-only, write-only and read-write partition every property that has a type, and shared implies read-write |
| Types.IsSubclassAncestors | Analysis/src/Type.cpp:1242-1256 | `isSubclass` holds exactly when the parent is on the class's ancestor chain, the class included |
| Types.IsSubclassTransitive | Analysis/src/Type.cpp:1242-1256 | subclassing is transitive |
| Types.IsSubclassAntisymmetric | Analysis/src/Type.cpp:1242-1256 | two distinct classes are never each other's subclass |
| Types.IsSubclass | Analysis/src/Type.cpp:1242-1256 | the parent loop of `isSubclass`; `IsSubclassAncestors` states it as membership in the ancestor chain |
| Types.LookupFindsDeclaration | Analysis/src/Type.cpp:1223-1240 | the lookup succeeds exactly when some class on the chain declares the name, and yields a declared property |
| Types.LookupNearest | Analysis/src/Type.cpp:1223-1240 | the property found is the nearest declaring class's: a subclass shadows its ancestors |
| Types.LookupExternTypeProp | Analysis/src/Type.cpp:1223-1240 | the lookup up the parent chain; `LookupFindsDeclaration` and `LookupNearest` state when it succeeds and which declaration it finds |
| Types.ChainHasTagAncestors | Analysis/src/Type.cpp:1347-1370 | an extern class has a tag exactly when some class on its ancestor chain carries it |
| Types.HasTagInherited | Analysis/src/Type.cpp:1347-1370 | a subclass has every tag of its superclasses |
| Types.HasTag | Analysis/src/Type.cpp:1347-1370 | `hasTag` on an extern class searches the class and its ancestors; partner `ChainHasTagAncestors` |
| Simplify.Flip | Analysis/src/Simplify.cpp:141-152 | `flip` swaps subset and superset and fixes the other relations |
| Simplify.FlipInvolution | Analysis/src/Simplify.cpp:141-152 | flipping twice is the identity |
| Simplify.Combine | Analysis/src/Simplify.cpp:155-238 | `combine` has disjoint as right identity, is idempotent, and is disjoint only for two disjoint parts |
| Simplify.CombineNotSymmetric | Analysis/src/Simplify.cpp:155-238 | `combine` is not symmetric: `combine(Disjoint, Coincident)` is Superset but the swapped call is Coincident |
| Simplify.Invert | Analysis/src/Simplify.cpp:241-259 | A relates to ~B as subset exactly when A and B are disjoint, as disjoint exactly when A lies in B, and intersects otherwise |
| Simplify.Relate | Analysis/src/Simplify.cpp:325-341 | the seen set only grows and records the pair of followed types; identical followed types and already-seen pairs are Coincident |
| Simplify.RelateLeaves | Analysis/src/Simplify.cpp:325-660 | on types without unions, intersections and negations, `relate` computes the reference relation table, whatever unrelated pairs the seen set holds |
| Simplify.LeafRelationAntisymmetric | Analysis/src/Simplify.cpp:343-660 | the reference relation table flips when its operands are swapped |
| Simplify.RelateAntisymmetric | Analysis/src/Simplify.cpp:325-660 | swapping the operands of `relate` on leaf types flips the relation |
| Simplify.RelateTops | Analysis/src/Simplify.cpp:343-427 | the unknown, never and error rows of the relation table, in both operand orders |
| Simplify.RelateAtoms | Analysis/src/Simplify.cpp:481-535 | primitives and singletons are Coincident exactly when equal and Disjoint otherwise; string and boolean contain their singletons |
| Simplify.RelateExtern | Analysis/src/Simplify.cpp:634-645 | between extern classes, subclass is Subset, superclass is Superset, and unrelated classes are Disjoint |
| Simplify.RelateUnionMember | Analysis/src/Simplify.cpp:433-444 | a leaf other than unknown, any, error or never relates as Subset to every union that has it among its leaves, at any depth of nesting (those four are answered before the union branch is reached: unknown and any as Superset, error as Disjoint, never as Subset by its own row) |
| Simplify.RelateToUnionLeaves | Analysis/src/Simplify.cpp:433-444 | the loop over the iterator's leaves answers Subset exactly when some leaf is contained by the reference table, was already related, or repeats an earlier leaf |
| Simplify.RelateUnionLeaves | Analysis/src/Simplify.cpp:433-444 | a leaf against a union of leaves is Subset exactly when some leaf of the union contains it by the reference table or some leaf is visited twice, and Intersects otherwise |
| Simplify.RelateRepeatedParts | Analysis/src/Simplify.cpp:433-444 | `number` against `(string \| nil) \| (string \| nil)` is Intersects, as against `string \| nil`, because the iterator walks the repeated union once; against `string \| string` it is Subset |
| Simplify.RelateNegation | Analysis/src/Simplify.cpp:446-476 | against a negated leaf, `relate` is `invert` of the relation to the leaf itself |
| Simplify.RelateFollows | Analysis/src/Simplify.cpp:329-330 | following the operands beforehand does not change `relate` |
| Simplify.SplitComplementary | Analysis/src/Simplify.cpp:1689-1727 | intersecting and subtracting a discriminant are complementary: disjoint gives never and the whole target, contained gives the target and never, undecided stays undecided |
| Simplify.SubtractNegation | Analysis/src/Simplify.cpp:1707-1714 | subtracting a negated type is intersecting with the type under the negation |
| Simplify.SplitSelf | Analysis/src/Simplify.cpp:1689-1727 | a type split against itself: the intersection is the type and the difference is never |
| Simplify.IntersectOne | Analysis/src/Simplify.cpp:1689-1705 | `intersectOne` answers from the relation alone; `SplitComplementary` and `SplitSelf` state its cases |
| Simplify.SubtractOne | Analysis/src/Simplify.cpp:1707-1727 | `subtractOne` answers from the relation, and a negated discriminant turns it into `intersectOne`; partners `SplitComplementary` and `SubtractNegation` |
| Simplify.AddType | Analysis/src/Simplify.cpp:1451-1453 | a new type gets a fresh id, and every existing type keeps its id and node |
| Simplify.SimplifyType | Analysis/src/Simplify.cpp:1602-1646 | simplification only adds types, returns an unbound type, and leaves any type that does not follow to a negation as the followed type |
| Simplify.SimplifyNormal | Analysis/src/Simplify.cpp:1608-1628 | a simplified type is never a double negation nor a negation of any, unknown or never |
| Simplify.IntersectNever | Analysis/src/Simplify.cpp:1428-1461 | intersecting with never gives never, on either side, for every other operand that does not simplify to `any` (`any & never` is the fresh `never \| *error-type*` of `BasicIntersectAny`); a never operand on the left is kept as it is |
| Simplify.IntersectUnknown | Analysis/src/Simplify.cpp:1428-1457 | intersecting with unknown gives the simplified other side back, on either side |
| Simplify.IntersectSubclass | Analysis/src/Simplify.cpp:1513-1515 | an extern class intersected with one of its superclasses, in either order, is the class itself |
| Simplify.IntersectExterns | Analysis/src/Simplify.cpp:1414-1423 | two distinct extern classes intersect to the narrower one when one contains the other |
| Simplify.BasicIntersect | Analysis/src/Simplify.cpp:1260-1273 | `basicIntersect` only ever adds a type, and when it adds one, that new type is its answer |
| Simplify.BasicIntersectAny | Analysis/src/Simplify.cpp:1265-1273 | `any` against a type that is not the error type gives a new union of that type and the error type |
| Simplify.BasicIntersectNoAny | Analysis/src/Simplify.cpp:1260-1273 | without `any` on either side the arena is unchanged and the answer depends only on the followed types |
| Simplify.BasicIntersectBooleanNegation | Analysis/src/Simplify.cpp:1282-1311 | `boolean` against `~true` is `false` and against `~false` is `true`, in either order |
| Simplify.BasicIntersectExterns | Analysis/src/Simplify.cpp:1414-1423 | `basicIntersect` of two related extern classes keeps the narrower one |
| Simplify.UnionBooleanSingletons | Analysis/src/Simplify.cpp:1584-1597 | `true ∪ false` and `false ∪ true` are `boolean` |
| Simplify.UnionSubclass | Analysis/src/Simplify.cpp:1576-1582 | an extern class united with one of its superclasses, in either order, is the superclass |
| Simplify.UnionExterns | Analysis/src/Simplify.cpp:1576-1582 | two distinct extern classes unite to the wider one when one contains the other |
| Simplify.IntersectUnionIdempotent | Analysis/src/Simplify.cpp:1428-1600 | intersecting a plain type with itself gives the followed type, and so does a union of a non-union with itself |
| Simplify.Intersect | Analysis/src/Simplify.cpp:1428-1518 | `intersect` only adds types to the arena, and a result it gives is a type of the arena; `IntersectOrdinary`, `IntersectNever` and `IntersectUnknown` state the answers |
| Simplify.Union | Analysis/src/Simplify.cpp:1520-1600 | `union_` only adds types to the arena, and a result it gives is a type of the arena; `UnionOrdinary` states the answers |
| Simplify.BasicIntersectRest | Analysis/src/Simplify.cpp:1274-1423 | the cases of `basicIntersect` after `any` answer with a type of the store; `BasicIntersectFallback` states the relation fallback |
| Simplify.OrdinaryDecided | Analysis/src/Simplify.cpp:343-660 | two primitives, singletons or extern classes always relate decisively, never as Intersects, so the fresh intersection of `intersect` is only reached by types outside this model |
| Simplify.BasicIntersectFallback | Analysis/src/Simplify.cpp:1408-1423 | on primitives, singletons and extern classes `basicIntersect` answers by the relation: Disjoint gives never, Subset or Coincident the left side, Superset the right side, and the boolean rules agree |
| Simplify.IntersectSimplifiedOrdinary | Analysis/src/Simplify.cpp:1437-1517 | the body of `intersect` on two simplified ordinary leaves keeps the arena and answers by the relation |
| Simplify.IntersectOrdinary | Analysis/src/Simplify.cpp:1428-1518 | `intersect` of operands that follow to primitives, singletons or extern classes keeps the arena and is never, the left side or the right side exactly as the relation is Disjoint, Subset or Coincident, or Superset |
| Simplify.UnionSimplifiedOrdinary | Analysis/src/Simplify.cpp:1527-1599 | the body of `union_` on two simplified ordinary leaves answers by the relation |
| Simplify.UnionOrdinary | Analysis/src/Simplify.cpp:1520-1600 | `union_` of such operands is the left side for Coincident or Superset, the right side for Subset, `boolean` for `true` with `false`, and otherwise a fresh union of the two, the only change to the arena |
| Simplify.LeafAtoms | Analysis/src/Simplify.cpp:481-645 | the relation table on the tests' atoms: primitives are Coincident exactly when of one kind and Disjoint otherwise, a string singleton lies in `string`, distinct singletons and unrelated extern classes are Disjoint |
| Simplify.IntersectAtoms | tests/Simplify.test.cpp:284-323 | `number & number` (another id) is the left number, `number & string` is never, `"hello" & string` is `"hello"` in either order, and `"world" & "hello"` is never |
| Simplify.IntersectUnrelated | tests/Simplify.test.cpp:517-526 | two unrelated extern classes intersect to never |
| TypePacks.FollowPackChecked | Analysis/src/TypePack.cpp:299-348 | `follow` on packs returns a pack that does not advance, on the chain, the input when it does not advance, the recursive definition's result on a well-founded store, and fails exactly on an endless chain |
| TypePacks.BeginRemaining | Analysis/src/TypePack.cpp:127-138 | a fresh iterator has exactly the flattened head types and tail still to yield |
| TypePacks.AdvanceRemaining | Analysis/src/TypePack.cpp:140-163 | each step yields the first remaining head type and leaves the rest and the tail |
| TypePacks.AdvanceDecreases | Analysis/src/TypePack.cpp:140-163 | each step moves to a lower pack or to fewer head types left, so iteration ends on a well-founded store |
| TypePacks.FlattenPack | Analysis/src/TypePack.cpp:422-435 | the iterator loop collects exactly the flattened head types and the tail |
| TypePacks.SizeIsFlattenLength | Analysis/src/TypePack.cpp:350-357 | `size` counts exactly the head types the iterator yields |
| TypePacks.SizeOfPackFlatten | Analysis/src/TypePack.cpp:372-382 | the size of a list pack counts its tail only when the tail follows to a list pack, which is the flattened length |
| TypePacks.Size | Analysis/src/TypePack.cpp:350-357 | `size` walks the pack and counts its head types; `SizeIsFlattenLength` states it is the flattened length |
| TypePacks.Finite | Analysis/src/TypePack.cpp:359-370 | `finite` follows the tail chain to its end; `FiniteFlatten` states it holds exactly when the flattened tail is not variadic |
| TypePacks.FiniteFlatten | Analysis/src/TypePack.cpp:359-370 | a pack is finite exactly when its flattened tail is not a variadic pack |
| TypePacks.IsEmptyFlatten | Analysis/src/TypePack.cpp:411-420 | a pack is empty exactly when it flattens to no head types and no tail |
| TypePacks.IsEmpty | Analysis/src/TypePack.cpp:411-420 | `isEmpty` on the followed pack; `IsEmptyFlatten` states it holds exactly when there are no head types and no tail |
| TypePacks.FirstFlatten | Analysis/src/TypePack.cpp:384-399 | `first` is the first flattened head type, else the type of a variadic tail unless it is hidden and hidden ones are ignored |
| TypePacks.First | Analysis/src/TypePack.cpp:384-399 | `first` returns the first head type or the variadic tail's type; `FirstFlatten` states it over the flattened pack |
| TypePacks.VariadicNotFinite | Analysis/src/TypePack.cpp:487-511 | a pack is not finite exactly when it is variadic, hidden tails included, through a variadic rather than a generic pack |
| TypePacks.IsVariadic | Analysis/src/TypePack.cpp:487-500 | `isVariadic` asks whether the flattened tail is variadic; `VariadicNotFinite` states it is exactly the negation of `finite` |
| TypePacks.ContainsNever | Analysis/src/TypePack.cpp:513-532 | true exactly when some flattened head type, or the type of a variadic tail, follows to never |
| TypePacks.GetTail | Analysis/src/TypePack.cpp:209-227 | the result does not advance, and on a well-founded store it is the last pack of the tail chain |
| TypePacks.LastPackFlatten | Analysis/src/TypePack.cpp:209-227 | the last pack of the chain is the tail `flatten` reports, when it is not a list pack |
| OperandX64.Memory | CodeGen/include/Luau/OperandX64.h:45-53 | a memory operand that stores the given index, base, size and displacement as they are, and the scale in a 4-bit field, so a scale below 16 is kept exactly |
| OperandX64.FromRegister | CodeGen/include/Luau/OperandX64.h:25-33 | a register operand with the register as base, no index, no size, scale 1 and displacement 0 |
| OperandX64.FromImmediate | CodeGen/include/Luau/OperandX64.h:35-43 | an immediate operand holding the value, with no base, no index, no size and scale 1 |
| OperandX64.Index | CodeGen/include/Luau/OperandX64.h:63-72 | `size[addr]` gives the address its size and keeps base, index, scale and displacement |
| OperandX64.Template | CodeGen/include/Luau/OperandX64.h:75-81 | `byte`, `qword`, ... are empty memory templates of their size |
| OperandX64.Scale | CodeGen/include/Luau/OperandX64.h:83-92 | `reg * 1` is the register operand itself; any other scale is a memory operand with that register as index, that scale, no base, no size and no displacement |
| OperandX64.AddDisp | CodeGen/include/Luau/OperandX64.h:94-97 | `reg + disp` is an unsized memory operand; its address is stated by `DispAddress` |
| OperandX64.SubDisp | CodeGen/include/Luau/OperandX64.h:99-102 | `reg - disp` is an unsized memory operand; `SubIsAddNegated` shows it is `reg + (-disp)` |
| OperandX64.AddRegisters | CodeGen/include/Luau/OperandX64.h:104-110 | `base + index` is an unsized memory operand; `RegistersAddress` states that it addresses the sum |
| OperandX64.OperandAddDisp | CodeGen/include/Luau/OperandX64.h:112-119 | `op + disp` keeps the category, size, index, base and scale; `OperandAddAddress` states the shifted address |
| OperandX64.OperandAddBase | CodeGen/include/Luau/OperandX64.h:121-130 | `op + base` sets the base and keeps index, scale and displacement |
| OperandX64.BaseAddOperand | CodeGen/include/Luau/OperandX64.h:132-141 | `base + op` sets the base and keeps index, scale and displacement; `AddBaseCommutes` shows it equals `op + base` |
| OperandX64.ScaleAddress | CodeGen/include/Luau/OperandX64.h:83-92 | `reg * s` for s in 2, 4, 8 is a memory operand addressing `s` times the register |
| OperandX64.DispAddress | CodeGen/include/Luau/OperandX64.h:94-102 | `reg + d` addresses `reg + d` and `reg - d` addresses `reg - d` |
| OperandX64.SubIsAddNegated | CodeGen/include/Luau/OperandX64.h:94-102 | `reg - d` builds the same operand as `reg + (-d)` |
| OperandX64.RegistersAddress | CodeGen/include/Luau/OperandX64.h:104-110 | `base + index` addresses the sum of the two registers |
| OperandX64.OperandAddAddress | CodeGen/include/Luau/OperandX64.h:112-130 | adding a displacement shifts the address by it, and adding a base register adds the register's value |
| OperandX64.AddBaseCommutes | CodeGen/include/Luau/OperandX64.h:121-141 | `op + base` and `base + op` build the same operand |
| OperandX64.AddDispAssociates | CodeGen/include/Luau/OperandX64.h:112-119 | displacements accumulate: `(op + a) + b` is `op + (a + b)` |
| OperandX64.FullAddressForm | CodeGen/include/Luau/OperandX64.h:63-141 | `size[base + index * scale + disp]` is the memory operand with exactly those parts and addresses `base + index * scale + disp` |

## Left out

- RequireTracer.TraceRequires: the require list and the call entries are stated under the
  hypothesis `NoEarlierCallArg`, meaning no call's argument is a call recorded before it.
  This always holds for a parsed tree, where nodes are not shared. Without it, an
  assembled call entry could overwrite a later call's argument entry, and that case is
  not characterised.
- RequireTracer.Assemble: the require list and the call entries are stated under the same
  `NoEarlierCallArg` hypothesis.
- RequireTracer.TraceRequires requires the dependency edges to be acyclic (`Ranked`, every
  dependency a smaller node id). The source's closure loop does not terminate otherwise.
- The commented-out table-cache branch of `getDependent` and the testing branches are not
  modelled. `getDependent_DEPRECATED` is not called by the tracer and is left out.
- RequireTracer.Dependent, CustomTesting.ResolveModule: a method call whose callee is not
  a named index gives no dependency and no module in the model. The parser never produces
  one, and the source would dereference a null pointer.
- `TestFileResolver::getModule` only asserts false and is left out.
- The I/O around the resolvers (`frontendCheck`, file reading, the frontend itself) is
  left out.
- `split` and `join` come from Luau's StringUtils, which is not part of this model. They
  are modelled as splitting at every `/`, with no piece for a trailing separator, and
  joining with `/`.
- `Config` is a type parameter of `GetConfig`, and its fields are not modelled.
- `RecursionLimiter` in `intersect`, `union_` and `simplify` is ignored. Its depth limit
  throws, and that error path is not modelled.
- Simplify.Intersect: operands that are unions, intersections, negations, tables, free
  types or other type variables after simplification give `Delegated`. The helpers that
  handle them (`intersectUnions`, `intersectNegations`, `intersectTypeWithNegation`,
  `intersectIntersectionWithType`, `basicIntersectWithTruthy` and related) are not part
  of this model. The truthy and falsy shortcuts of `basicIntersect` are left out for the
  same reason.
- Simplify.BasicIntersect, Simplify.BasicIntersectRest: the truthy and falsy shortcuts
  (`basicIntersectWithTruthy` and `basicIntersectWithFalsy`) are not modelled. On
  `number & ~(false | nil)` the model relates the operands and answers None, whereas the
  truthy shortcut answers `number`; the contracts promise nothing about such operands.
- Simplify.Union: a union operand on either side gives `Delegated`; the merge loop over a
  union's parts is not modelled.
- Simplify.SimplifyType: the table promotion `{x: never}` to `never` and the `seen` set
  are not modelled. Tables are not among the modelled type nodes, and a `seen` set cannot
  stop a well-founded negation chain earlier.
- `relate` on functions, tables, metatables and type-function instances is not modelled;
  those type nodes are outside the model.
- Types.FlattenIntersection, Types.UnionParts, Types.UnionPartsAreLeaves, Types.UnionPartsAll, Simplify.Relate:
  these, and every other member of Types and Simplify except `FollowType`, `FollowAny`,
  `WalkOptions` and `UnionWalk`, require a well-founded store, in which every bound,
  option, part, negation and parent edge goes to a smaller id. Cyclic unions,
  intersections and negations, which the source accepts (a union that contains itself,
  tests/Simplify.test.cpp:613-621), are outside those members. So the `seen` set of
  `flattenIntersection` (Type.cpp:144-157) never stops a cycle in the model, and the
  cycle branch of `relate` (Simplify.cpp:336-341) is reached only through a repeated
  leaf. The union iterator itself is modelled on any store by `WalkOptions`, whose skip
  of an entered union is what ends a cyclic walk (`SelfUnionWalk`). The source test's
  `union_(t1, string) == string` for that cyclic `t1` is not stated, because `relate`
  and `union_` are not modelled on cyclic stores.
- Types.UnionParts: the union iterator is declared in Type.h, which is not part of this
  model. It is modelled as a depth-first walk over the options that enters each nested
  union once and yields every other option unfollowed, an empty nested union yielding
  nothing.
- Simplify.Relate: a leaf repeated in a union, as in `string | string`, is related twice,
  and the second visit finds the pair already seen and counts as Coincident, so the answer
  is Subset. The source behaves the same way.
- Types: only bound edges are followed. Table `boundTo` and lazy types are not modelled,
  and neither is the `mapper` argument of `follow`.
- `hasTag` on types other than extern classes (tables, functions) is not modelled. Those
  types carry no tags in the model.
- TypePacks.IsVariadic: `isVariadic(tp)` passes no `includeHiddenVariadics` argument in
  the source and relies on the declaration's default value, which is not shown. The model
  takes it as a parameter.
- TypePacks: the pack iterator and the operations built on it require a well-founded
  store, in which every tail points to a smaller pack. The iterator's cycle error (TypePack.cpp:152-158) therefore never fires
  in the model and is not modelled; `follow` on packs still reports endless chains.
- TypePacks: `TxnLog` variants and the `mappedGenericPacks` overload of `flatten` are not
  modelled.
- OperandX64.OperandAddDisp requires that the new displacement fits in 32 bits. Signed
  overflow in C++ is undefined, so no wrap-around is modelled.
- OperandX64.SubDisp requires the displacement not to be the most negative 32-bit value,
  for the same reason.
- OperandX64: `RegisterX64` is not part of this model. `noreg` is taken as register
  number 16 with no size, and the stack pointer as register number 4.
