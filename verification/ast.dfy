/**
 * The fragment of the Luau syntax tree that the require tracer and the test file resolver
 * inspect. A `Tree` maps node ids to nodes; a node names its children by id. Nodes that
 * neither component distinguishes are kept as `ExprOther`, `TypeOther` or `StatOther`
 * with their children, so that a walk still reaches everything beneath them.
 *
 * `WellFormed` says every child is present and has a smaller id than its parent, which is
 * the case for a post-order numbering of a finite parse tree.
 */
module Ast {

  type NodeId = nat

  /** `AstLocal`: a local variable, identified by its declaration. */
  datatype Local = Local(id: nat, name: string)

  /** The source position of a node. */
  datatype Location = Location(line: nat, column: nat)

  datatype Node =
    // expressions
    | ExprGlobal(name: string)
    | ExprLocal(local: Local)
    | ExprConstantString(value: string)
    | ExprIndexName(expr: NodeId, index: string)
    | ExprIndexExpr(expr: NodeId, key: NodeId)
    | ExprCall(func: NodeId, args: seq<NodeId>, self: bool, location: Location)
    | ExprGroup(expr: NodeId)
    | ExprTypeAssertion(expr: NodeId, annotation: NodeId)
    | ExprOther(children: seq<NodeId>)
    // type annotations
    | TypeGroup(ty: NodeId)
    | TypeTypeof(expr: NodeId)
    | TypeOther(children: seq<NodeId>)
    // statements; `annotations` are the type annotations present on `vars`
    | StatLocal(vars: seq<Local>, annotations: seq<NodeId>, values: seq<NodeId>)
    | StatAssign(targets: seq<NodeId>, values: seq<NodeId>)
    | StatOther(children: seq<NodeId>)

  type Tree = map<NodeId, Node>

  /** `asExpr()` is non-null. */
  predicate IsExpr(n: Node) {
    || n.ExprGlobal? || n.ExprLocal? || n.ExprConstantString? || n.ExprIndexName?
    || n.ExprIndexExpr? || n.ExprCall? || n.ExprGroup? || n.ExprTypeAssertion? || n.ExprOther?
  }

  /** The children of a node in the order Luau's `visit` methods descend into them. */
  function Children(n: Node): seq<NodeId> {
    match n
    case ExprGlobal(_) => []
    case ExprLocal(_) => []
    case ExprConstantString(_) => []
    case ExprIndexName(e, _) => [e]
    case ExprIndexExpr(e, k) => [e, k]
    case ExprCall(f, args, _, _) => [f] + args
    case ExprGroup(e) => [e]
    case ExprTypeAssertion(e, a) => [e, a]
    case ExprOther(cs) => cs
    case TypeGroup(ty) => [ty]
    case TypeTypeof(e) => [e]
    case TypeOther(cs) => cs
    case StatLocal(_, anns, values) => anns + values
    case StatAssign(targets, values) => targets + values
    case StatOther(cs) => cs
  }

  predicate WellFormed(t: Tree) {
    forall n, i | n in t && 0 <= i < |Children(t[n])| :: Children(t[n])[i] < n && Children(t[n])[i] in t
  }

  /** The children of a present node of a well-formed tree are present and smaller. */
  lemma ChildBelow(t: Tree, n: NodeId, c: NodeId)
    requires WellFormed(t) && n in t && c in Children(t[n])
    ensures c < n && c in t
  {
    var i :| 0 <= i < |Children(t[n])| && Children(t[n])[i] == c;
  }
}
