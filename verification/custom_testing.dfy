/**
 * The test file and config resolvers of CLI/src/CustomTesting.cpp: turning `script.Parent.A`
 * style path expressions into `/`-separated module names, the concrete `resolveModule`
 * policy that plugs into the require tracer, and the lookups of sources, environments and
 * configs in in-memory tables.
 *
 * `split` and `join` come from Luau's StringUtils, which is not part of this model; they are
 * modelled as the usual splitting at every separator (a trailing separator adds no empty
 * piece) and joining with the separator between pieces.
 */
module CustomTesting {
  import opened Options
  import opened Ast
  import RequireTracer

  type ModuleInfo = RequireTracer.ModuleInfo

  // ---------------------------------------------------------------------------------
  // split and join on '/'

  /** The first index of `c` in `s`. */
  function IndexOf(s: string, c: char): (r: Option<nat>)
    ensures r.Some? ==> r.value < |s| && s[r.value] == c && c !in s[..r.value]
    ensures r.None? ==> c !in s
  {
    if s == [] then None
    else if s[0] == c then Some(0)
    else match IndexOf(s[1..], c)
      case None => None
      case Some(i) => assert s[..i + 1] == [s[0]] + s[1..][..i]; Some(i + 1)
  }

  /** The last index of `c` in `s` (`find_last_of`). */
  function LastIndexOf(s: string, c: char): (r: Option<nat>)
    ensures r.Some? ==> r.value < |s| && s[r.value] == c && c !in s[r.value + 1..]
    ensures r.None? ==> c !in s
  {
    if s == [] then None
    else if s[|s| - 1] == c then Some(|s| - 1)
    else match LastIndexOf(s[..|s| - 1], c)
      case None => None
      case Some(i) => assert s[i + 1..] == s[..|s| - 1][i + 1..] + [s[|s| - 1]]; Some(i)
  }

  lemma {:induction false} IndexOfAt(s: string, c: char, k: nat)
    requires k < |s| && s[k] == c && c !in s[..k]
    ensures IndexOf(s, c) == Some(k)
  {
    if k > 0 {
      assert s[0] == s[..k][0];
      assert s[1..][..k - 1] == s[1..k];
      IndexOfAt(s[1..], c, k - 1);
    }
  }

  lemma {:induction false} LastIndexOfAt(s: string, c: char, k: nat)
    requires k < |s| && s[k] == c && c !in s[k + 1..]
    ensures LastIndexOf(s, c) == Some(k)
    decreases |s|
  {
    if k < |s| - 1 {
      assert s[|s| - 1] == s[k + 1..][|s| - 2 - k];
      assert s[..|s| - 1][k + 1..] == s[k + 1..|s| - 1];
      LastIndexOfAt(s[..|s| - 1], c, k);
    }
  }

  /** `split(s, '/')`. */
  function Split(s: string): seq<string>
    decreases |s|
  {
    if s == [] then []
    else match IndexOf(s, '/')
      case None => [s]
      case Some(i) => [s[..i]] + Split(s[i + 1..])
  }

  /** `join(xs, "/")`. */
  function Join(xs: seq<string>): string
    decreases |xs|
  {
    if |xs| == 0 then "" else if |xs| == 1 then xs[0] else xs[0] + "/" + Join(xs[1..])
  }

  /** Joining concatenations puts one separator between the two halves. */
  lemma {:induction false} JoinAppend(xs: seq<string>, ys: seq<string>)
    requires xs != [] && ys != []
    ensures Join(xs + ys) == Join(xs) + "/" + Join(ys)
    decreases |xs|
  {
    if |xs| == 1 {
      assert (xs + ys)[1..] == ys;
    } else {
      assert (xs + ys)[1..] == xs[1..] + ys;
      JoinAppend(xs[1..], ys);
    }
  }

  /** Splitting and joining again restores a name that does not end in a separator. */
  lemma {:induction false} JoinSplit(s: string)
    requires s == [] || s[|s| - 1] != '/'
    ensures Join(Split(s)) == s
    decreases |s|
  {
    if s != [] {
      match IndexOf(s, '/')
      case None =>
      case Some(i) =>
        var rest := s[i + 1..];
        assert rest != [] && rest[|rest| - 1] != '/';
        JoinSplit(rest);
        SplitNonEmpty(rest);
        assert s == s[..i] + "/" + rest;
    }
  }

  lemma SplitNonEmpty(s: string)
    requires s != []
    ensures Split(s) != []
  {
  }

  /**
   * Joining and splitting again gives back the pieces, when none holds a separator and the
   * last is not empty.
   */
  lemma {:induction false} SplitJoin(xs: seq<string>)
    requires forall i | 0 <= i < |xs| :: '/' !in xs[i]
    requires xs != [] ==> xs[|xs| - 1] != ""
    ensures Split(Join(xs)) == xs
    decreases |xs|
  {
    if |xs| == 1 {
      assert IndexOf(xs[0], '/').None?;
    } else if |xs| > 1 {
      var s := Join(xs);
      var head := xs[0];
      assert s == head + "/" + Join(xs[1..]);
      assert s[|head|] == '/';
      assert s[..|head|] == head;
      IndexOfAt(s, '/', |head|);
      assert s[|head| + 1..] == Join(xs[1..]);
      SplitJoin(xs[1..]);
    }
  }

  // ---------------------------------------------------------------------------------
  // parsePathExpr and pathExprToModuleName (CustomTesting.cpp:15-80)

  /** The root-first names of a chain of named indexings ending in a global or a local. */
  function PathChain(t: Tree, n: NodeId): (r: Option<seq<string>>)
    requires WellFormed(t) && n in t
    ensures r.Some? ==> |r.value| >= 1
    decreases n
  {
    match t[n]
    case ExprIndexName(e, index) =>
      ChildBelow(t, n, e);
      (match PathChain(t, e)
       case None => None
       case Some(p) => Some(p + [index]))
    case ExprGlobal(name) => Some([name])
    case ExprLocal(l) => Some([l.name])
    case _ => None
  }

  /**
   * `parsePathExpr`: for a named index whose chain of named indexings ends in a global or
   * a local, the root-first names (the root, then one per indexing); otherwise empty.
   */
  function ParsePathExpr(t: Tree, n: NodeId): (r: seq<string>)
    requires WellFormed(t) && n in t
    ensures r != [] ==> t[n].ExprIndexName? && |r| >= 2 && r[|r| - 1] == t[n].index
    ensures !t[n].ExprIndexName? ==> r == []
  {
    match t[n]
    case ExprIndexName(e, index) =>
      ChildBelow(t, n, e);
      (match PathChain(t, e)
       case None => []
       case Some(p) => p + [index])
    case _ => []
  }

  /** `t` is the chain `root.names[0].names[1]...`, node `k` holding the first `k` indexings. */
  ghost predicate IsPathTree(t: Tree, root: string, names: seq<string>) {
    && (forall k: nat :: k in t <==> k <= |names|)
    && 0 in t && t[0] == ExprGlobal(root)
    && forall i | 0 <= i < |names| :: i + 1 in t && t[i + 1] == ExprIndexName(i, names[i])
  }

  lemma PathTreeRanked(t: Tree, root: string, names: seq<string>)
    requires IsPathTree(t, root, names)
    ensures WellFormed(t) && RequireTracer.Ranked(t, map[])
  {
    forall k | k in t ensures Children(t[k]) == if k == 0 then [] else [k - 1] {
      if k > 0 {
        assert t[k] == ExprIndexName(k - 1, names[k - 1]);
      }
    }
    forall n | n in t && RequireTracer.Dependent(t, map[], n).Some?
      ensures RequireTracer.Dependent(t, map[], n).value < n && RequireTracer.Dependent(t, map[], n).value in t
    {
      assert n != 0;
      assert t[n] == ExprIndexName(n - 1, names[n - 1]);
    }
  }

  /** Indexing the chain once more by the last name extends it by one node. */
  lemma PathTreeExtend(t: Tree, root: string, names: seq<string>)
    requires names != [] && IsPathTree(t, root, names[..|names| - 1])
    ensures IsPathTree(t[|names| := ExprIndexName(|names| - 1, names[|names| - 1])], root, names)
  {
    var front := names[..|names| - 1];
    var t' := t[|names| := ExprIndexName(|names| - 1, names[|names| - 1])];
    forall i | 0 <= i < |names| ensures i + 1 in t' && t'[i + 1] == ExprIndexName(i, names[i]) {
      if i < |names| - 1 {
        assert front[i] == names[i];
      }
    }
  }

  /** The chain `root.names[0].names[1]...`, as a tree. */
  function PathTree(root: string, names: seq<string>): (t: Tree)
    ensures IsPathTree(t, root, names)
    ensures WellFormed(t) && RequireTracer.Ranked(t, map[])
    decreases |names|
  {
    var t := if names == [] then map[0 := ExprGlobal(root)]
      else (
        var front := PathTree(root, names[..|names| - 1]);
        PathTreeExtend(front, root, names);
        front[|names| := ExprIndexName(|names| - 1, names[|names| - 1])]);
    PathTreeRanked(t, root, names);
    t
  }

  lemma {:induction false} PathChainOfTree(t: Tree, root: string, names: seq<string>, k: nat)
    requires IsPathTree(t, root, names) && WellFormed(t) && k <= |names|
    ensures PathChain(t, k) == Some([root] + names[..k])
    decreases k
  {
    if k == 0 {
      assert t[0] == ExprGlobal(root);
      assert [root] + names[..0] == [root];
    } else {
      assert t[k] == ExprIndexName(k - 1, names[k - 1]);
      PathChainOfTree(t, root, names, k - 1);
      assert names[..k] == names[..k - 1] + [names[k - 1]];
      assert [root] + names[..k] == ([root] + names[..k - 1]) + [names[k - 1]];
    }
  }

  /** `parsePathExpr` recovers the names of the chain it is given, at every indexing. */
  lemma ParsePathTree(root: string, names: seq<string>, k: nat)
    requires 1 <= k <= |names|
    ensures ParsePathExpr(PathTree(root, names), k) == [root] + names[..k]
  {
    ParsePathOf(PathTree(root, names), root, names, k);
  }

  lemma ParsePathOf(t: Tree, root: string, names: seq<string>, k: nat)
    requires IsPathTree(t, root, names) && WellFormed(t) && 1 <= k <= |names|
    ensures ParsePathExpr(t, k) == [root] + names[..k]
  {
    PathChainOfTree(t, root, names, k - 1);
    assert t[k] == ExprIndexName(k - 1, names[k - 1]);
    assert names[..k] == names[..k - 1] + [names[k - 1]];
    assert [root] + names[..k] == ([root] + names[..k - 1]) + [names[k - 1]];
  }

  /** The loop of `pathExprToModuleName`: `Parent` pops while more than one piece is held. */
  function WalkSegments(result: seq<string>, segments: seq<string>): seq<string>
    decreases |segments|
  {
    if segments == [] then result
    else
      var next := if |result| > 1 && segments[0] == "Parent" then result[..|result| - 1] else result + [segments[0]];
      WalkSegments(next, segments[1..])
  }

  /**
   * `pathExprToModuleName`: none for no segments, otherwise the joined walk, starting from
   * the pieces of the current module name when the path starts at a `script` of a named
   * module.
   */
  function PathExprToModuleName(current: string, segments: seq<string>): (r: Option<string>)
    ensures r.None? <==> segments == []
  {
    if segments == [] then None
    else if segments[0] == "script" && current != "" then Some(Join(WalkSegments(Split(current), segments[1..])))
    else Some(Join(WalkSegments([], segments)))
  }

  /** Without `Parent` segments the walk only appends. */
  lemma {:induction false} WalkWithoutParent(result: seq<string>, segments: seq<string>)
    requires "Parent" !in segments
    ensures WalkSegments(result, segments) == result + segments
    decreases |segments|
  {
    if segments != [] {
      assert segments == [segments[0]] + segments[1..];
      WalkWithoutParent(result + [segments[0]], segments[1..]);
      assert result + [segments[0]] + segments[1..] == result + segments;
    }
  }

  /** `Parent` drops the last piece when more than one is held, and is kept literally otherwise. */
  lemma WalkParent(result: seq<string>, segments: seq<string>)
    ensures |result| > 1 ==> WalkSegments(result, ["Parent"] + segments) == WalkSegments(result[..|result| - 1], segments)
    ensures |result| <= 1 ==> WalkSegments(result, ["Parent"] + segments) == WalkSegments(result + ["Parent"], segments)
  {
    assert (["Parent"] + segments)[1..] == segments;
  }

  /** A path from a global other than `script`, without `Parent`, is its segments joined. */
  lemma GlobalPath(current: string, segments: seq<string>)
    requires segments != [] && "Parent" !in segments
    requires segments[0] != "script" || current == ""
    ensures PathExprToModuleName(current, segments) == Some(Join(segments))
  {
    WalkWithoutParent([], segments);
    assert [] + segments == segments;
  }

  /** `script.A.B` in module `m` names `m/A/B`. */
  lemma ScriptPath(current: string, names: seq<string>)
    requires current != "" && current[|current| - 1] != '/'
    requires names != [] && "Parent" !in names
    ensures PathExprToModuleName(current, ["script"] + names) == Some(current + "/" + Join(names))
  {
    assert (["script"] + names)[1..] == names;
    WalkWithoutParent(Split(current), names);
    JoinSplit(current);
    SplitNonEmpty(current);
    JoinAppend(Split(current), names);
  }

  // ---------------------------------------------------------------------------------
  // TestFileResolver (CustomTesting.cpp:82-219)

  /** `SourceCode::Type`. */
  datatype SourceType = Script | Local | Module

  /** `SourceCode`. */
  datatype SourceCode = SourceCode(source: string, sourceType: SourceType)

  /** The tables of a `TestFileResolver`. */
  datatype TestFileResolver = TestFileResolver(
    source: map<string, string>,
    sourceTypes: map<string, SourceType>,
    environments: map<string, string>)

  /** `resolveModuleInfo`: the path expression's module name, never optional. */
  function ResolveModuleInfo(current: string, t: Tree, n: NodeId): (r: Option<ModuleInfo>)
    requires WellFormed(t) && n in t
    ensures r.Some? <==> ParsePathExpr(t, n) != []
    ensures r.Some? ==> !r.value.optional && Some(r.value.name) == PathExprToModuleName(current, ParsePathExpr(t, n))
  {
    match PathExprToModuleName(current, ParsePathExpr(t, n))
    case Some(name) => Some(RequireTracer.ModuleInfo(name, false))
    case None => None
  }

  /** `moduleExists`. */
  predicate ModuleExists(r: TestFileResolver, name: string) {
    name in r.source
  }

  /** `readSource`: the stored source, typed `Module` unless a type is recorded. */
  function ReadSource(r: TestFileResolver, name: string): (s: Option<SourceCode>)
    ensures s.Some? <==> ModuleExists(r, name)
    ensures s.Some? ==> s.value.source == r.source[name]
    ensures s.Some? && name !in r.sourceTypes ==> s.value.sourceType == Module
    ensures s.Some? && name in r.sourceTypes ==> s.value.sourceType == r.sourceTypes[name]
  {
    if name !in r.source then None
    else
      var sourceType := if name in r.sourceTypes then r.sourceTypes[name] else Module;
      Some(SourceCode(r.source[name], sourceType))
  }

  /**
   * `resolveModule`: `game` and `workspace` are roots, `script` is the context; with a
   * context, `.Parent` drops the last piece of its name, any other `.X` or `["X"]` appends
   * a piece, and `:GetService("S")` on `game` names `game/S`. Everything else is unresolved.
   */
  function ResolveModule(t: Tree, context: Option<ModuleInfo>, n: NodeId): Option<ModuleInfo> {
    if n !in t then None
    else match t[n]
      case ExprGlobal(g) =>
        if g == "game" then Some(RequireTracer.ModuleInfo("game", false))
        else if g == "workspace" then Some(RequireTracer.ModuleInfo("workspace", false))
        else if g == "script" then context
        else None
      case ExprIndexName(_, index) =>
        if context.None? then None
        else if index == "Parent" then
          match LastIndexOf(context.value.name, '/')
          case None => None
          case Some(i) => Some(RequireTracer.ModuleInfo(context.value.name[..i], context.value.optional))
        else Some(RequireTracer.ModuleInfo(context.value.name + "/" + index, context.value.optional))
      case ExprIndexExpr(_, key) =>
        if context.Some? && key in t && t[key].ExprConstantString? then
          Some(RequireTracer.ModuleInfo(context.value.name + "/" + t[key].value, context.value.optional))
        else None
      case ExprCall(f, args, self, _) =>
        if && self && |args| >= 1 && context.Some?
           && args[0] in t && t[args[0]].ExprConstantString?
           && f in t && t[f].ExprIndexName? && t[f].index == "GetService"
           && context.value.name == "game"
        then Some(RequireTracer.ModuleInfo("game/" + t[args[0]].value, false))
        else None
      case _ => None
  }

  /** `resolveModule` as the tracer's resolver for tree `t`. */
  function Resolver(t: Tree): RequireTracer.Resolver {
    (context: Option<ModuleInfo>, n: NodeId) => ResolveModule(t, context, n)
  }

  /**
   * `.Parent` keeps the optional flag and the text before the last separator: the name it
   * gives, a separator and a separator-free last piece make up the context's name. A name
   * without a separator has no parent.
   */
  lemma ParentStripsLastPiece(t: Tree, context: ModuleInfo, n: NodeId)
    requires n in t && t[n].ExprIndexName? && t[n].index == "Parent"
    ensures var r := ResolveModule(t, Some(context), n);
      && (r.None? <==> '/' !in context.name)
      && (r.Some? ==> (r.value.optional == context.optional
                       && exists last :: '/' !in last && context.name == r.value.name + "/" + last))
  {
    var name := context.name;
    match LastIndexOf(name, '/')
    case None =>
    case Some(i) =>
      assert name == name[..i] + "/" + name[i + 1..];
  }

  /** `.Parent` undoes `.X` for a separator-free `X`. */
  lemma ParentOfChild(t: Tree, context: ModuleInfo, child: NodeId, parent: NodeId)
    requires child in t && t[child].ExprIndexName? && t[child].index != "Parent" && '/' !in t[child].index
    requires parent in t && t[parent].ExprIndexName? && t[parent].index == "Parent"
    ensures ResolveModule(t, ResolveModule(t, Some(context), child), parent) == Some(context)
  {
    var name := context.name + "/" + t[child].index;
    assert name[|context.name|] == '/';
    assert name[|context.name| + 1..] == t[child].index;
    LastIndexOfAt(name, '/', |context.name|);
    assert name[..|context.name|] == context.name;
  }

  /** A call resolves only as `game:GetService("S")`, to the non-optional `game/S`. */
  lemma GetService(t: Tree, context: Option<ModuleInfo>, n: NodeId)
    requires n in t && t[n].ExprCall?
    ensures var r := ResolveModule(t, context, n);
      var call := t[n];
      r.Some? ==>
        (&& context.Some? && context.value.name == "game" && !r.value.optional
         && call.self && |call.args| >= 1 && call.args[0] in t && t[call.args[0]].ExprConstantString?
         && call.func in t && t[call.func].ExprIndexName? && t[call.func].index == "GetService"
         && r.value.name == "game/" + t[call.args[0]].value)
  {
  }

  /**
   * Of the globals, `game` and `workspace` name themselves whatever the context, `script`
   * is the context, and every other global is unresolved.
   */
  lemma GlobalRoots(t: Tree, context: Option<ModuleInfo>, n: NodeId)
    requires n in t && t[n].ExprGlobal?
    ensures var r := ResolveModule(t, context, n);
      && (t[n].name == "game" ==> r == Some(RequireTracer.ModuleInfo("game", false)))
      && (t[n].name == "workspace" ==> r == Some(RequireTracer.ModuleInfo("workspace", false)))
      && (t[n].name == "script" ==> r == context)
      && (r.Some? <==> t[n].name in ["game", "workspace"] || (t[n].name == "script" && context.Some?))
  {
  }

  /**
   * `ctx.X` and `ctx["X"]` name the same module for every `X` other than `Parent`, and
   * neither resolves without a context.
   */
  lemma IndexForms(t: Tree, context: Option<ModuleInfo>, byName: NodeId, byKey: NodeId)
    requires byName in t && t[byName].ExprIndexName? && t[byName].index != "Parent"
    requires byKey in t && t[byKey].ExprIndexExpr?
    requires t[byKey].key in t && t[t[byKey].key] == ExprConstantString(t[byName].index)
    ensures ResolveModule(t, context, byName) == ResolveModule(t, context, byKey)
    ensures ResolveModule(t, context, byName).Some? <==> context.Some?
  {
  }

  /**
   * The tracer with this resolver and `pathExprToModuleName` agree: the chain
   * `script.A.B...` without `Parent`, in a named module `m`, resolves to `m/A/B...` both
   * ways.
   */
  lemma {:induction false} TracerAgreesWithPath(current: string, names: seq<string>, k: nat)
    requires current != "" && current[|current| - 1] != '/'
    requires "Parent" !in names && 1 <= k <= |names|
    ensures var t := PathTree("script", names);
      && RequireTracer.Resolved(t, map[], current, Resolver(t), k)
         == Some(RequireTracer.ModuleInfo(current + "/" + Join(names[..k]), false))
      && RequireTracer.Resolved(t, map[], current, Resolver(t), k) == ResolveModuleInfo(current, t, k)
  {
    var t := PathTree("script", names);
    ResolvedPrefix(t, current, names, k);
    ParsePathTree("script", names, k);
    assert "Parent" !in names[..k] by {
      forall i | 0 <= i < k ensures names[..k][i] != "Parent" {
        assert names[..k][i] == names[i];
      }
    }
    ScriptPath(current, names[..k]);
    assert ResolveModuleInfo(current, t, k) == Some(RequireTracer.ModuleInfo(current + "/" + Join(names[..k]), false));
  }

  /** The tracer resolves `script` to the current module. */
  lemma ResolvedScript(t: Tree, current: string, names: seq<string>)
    requires IsPathTree(t, "script", names) && RequireTracer.Ranked(t, map[])
    ensures RequireTracer.Resolved(t, map[], current, Resolver(t), 0) == Some(RequireTracer.ModuleInfo(current, false))
  {
    assert t[0] == ExprGlobal("script");
    assert RequireTracer.Dependent(t, map[], 0) == None;
  }

  /** The tracer resolves `.X`, for `X` other than `Parent`, to its context's name extended by `X`. */
  lemma ResolvedIndex(t: Tree, current: string, names: seq<string>, k: nat, name: string)
    requires IsPathTree(t, "script", names) && RequireTracer.Ranked(t, map[])
    requires 1 <= k <= |names| && names[k - 1] != "Parent"
    requires RequireTracer.Resolved(t, map[], current, Resolver(t), k - 1) == Some(RequireTracer.ModuleInfo(name, false))
    ensures RequireTracer.Resolved(t, map[], current, Resolver(t), k)
      == Some(RequireTracer.ModuleInfo(name + "/" + names[k - 1], false))
  {
    assert t[k] == ExprIndexName(k - 1, names[k - 1]);
    assert RequireTracer.Dependent(t, map[], k) == Some(k - 1);
    var context := RequireTracer.Resolved(t, map[], current, Resolver(t), k - 1);
    assert Resolver(t)(context, k) == Some(RequireTracer.ModuleInfo(name + "/" + names[k - 1], false));
  }

  lemma {:induction false} ResolvedPrefix(t: Tree, current: string, names: seq<string>, k: nat)
    requires IsPathTree(t, "script", names) && RequireTracer.Ranked(t, map[])
    requires "Parent" !in names && 1 <= k <= |names|
    ensures RequireTracer.Resolved(t, map[], current, Resolver(t), k)
      == Some(RequireTracer.ModuleInfo(current + "/" + Join(names[..k]), false))
    decreases k
  {
    assert names[k - 1] in names;
    if k == 1 {
      ResolvedScript(t, current, names);
      ResolvedIndex(t, current, names, 1, current);
      assert names[..1] == [names[0]];
    } else {
      ResolvedPrefix(t, current, names, k - 1);
      ResolvedIndex(t, current, names, k, current + "/" + Join(names[..k - 1]));
      JoinSnoc(names, k);
      assert current + "/" + Join(names[..k - 1]) + "/" + names[k - 1] == current + "/" + Join(names[..k]);
    }
  }

  /** Joining one more name appends it after a separator. */
  lemma JoinSnoc(names: seq<string>, k: nat)
    requires 2 <= k <= |names|
    ensures Join(names[..k]) == Join(names[..k - 1]) + "/" + names[k - 1]
  {
    assert names[..k] == names[..k - 1] + [names[k - 1]];
    JoinAppend(names[..k - 1], [names[k - 1]]);
  }

  /** `getEnvironmentForModule`. */
  function GetEnvironmentForModule(r: TestFileResolver, name: string): (e: Option<string>)
    ensures e.Some? <==> name in r.environments
    ensures e.Some? ==> e.value == r.environments[name]
  {
    if name in r.environments then Some(r.environments[name]) else None
  }

  // ---------------------------------------------------------------------------------
  // getHumanReadableModuleName (CustomTesting.cpp:197-210)

  /** `result` is `name` with every separator replaced by a dot. */
  predicate IsHumanReadableOf(result: string, name: string) {
    && |result| == |name|
    && forall i | 0 <= i < |name| :: result[i] == (if name[i] == '/' then '.' else name[i])
  }

  /** `getHumanReadableModuleName`: replaces every `/` with `.` in place. */
  method GetHumanReadableModuleName(name: string) returns (result: string)
    ensures IsHumanReadableOf(result, name)
  {
    result := name;
    var i := 0;
    while i < |result|
      invariant |result| == |name| && i <= |result|
      invariant forall j | 0 <= j < i :: result[j] == (if name[j] == '/' then '.' else name[j])
      invariant forall j | i <= j < |result| :: result[j] == name[j]
    {
      if result[i] == '/' {
        result := result[i := '.'];
      }
      i := i + 1;
    }
  }

  /** The readable name has no separator left, so making it readable again changes nothing. */
  lemma HumanReadableIdempotent(result: string, name: string)
    requires IsHumanReadableOf(result, name)
    ensures '/' !in result
    ensures IsHumanReadableOf(result, result)
  {
  }

  // ---------------------------------------------------------------------------------
  // TestConfigResolver::getConfig (CustomTesting.cpp:221-228)

  datatype TestConfigResolver<Config> = TestConfigResolver(defaultConfig: Config, configFiles: map<string, Config>)

  /** `getConfig`: the module's own config, or the default one. */
  function GetConfig<Config>(r: TestConfigResolver<Config>, name: string): (c: Config)
    ensures name in r.configFiles ==> c == r.configFiles[name]
    ensures name !in r.configFiles ==> c == r.defaultConfig
  {
    if name in r.configFiles then r.configFiles[name] else r.defaultConfig
  }

  /** Registering a config for one module changes what that module gets and nothing else. */
  lemma GetConfigOverride<Config>(r: TestConfigResolver<Config>, name: string, config: Config, other: string)
    ensures GetConfig(r.(configFiles := r.configFiles[name := config]), name) == config
    ensures other != name ==> GetConfig(r.(configFiles := r.configFiles[name := config]), other) == GetConfig(r, other)
  {
  }
}
