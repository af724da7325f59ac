/**
 * A read-only view of the parts of a C# syntax tree that the nullable check
 * looks at: the shapes of expressions, and the chain of ancestors above the
 * member access being analyzed.
 */
module Syntax {
  import opened Wrappers

  /** The expression shapes the guard matcher and the candidate filter tell apart. */
  datatype Expr =
    | Ident(name: string)                           // IdentifierNameSyntax, by its value text
    | MemberAccess(receiver: Expr, member: string)  // MemberAccessExpressionSyntax `receiver.member`
    | Binary(left: Expr, op: string, right: Expr)   // BinaryExpressionSyntax, by its operator text
    | NullLit                                       // NullLiteralExpression `null`
    | Paren(inner: Expr)                            // ParenthesizedExpressionSyntax `(inner)`
    | Prefix(op: string, operand: Expr)             // PrefixUnaryExpressionSyntax, such as `!operand`
    | Invocation(callee: Expr, args: seq<Expr>)     // InvocationExpressionSyntax `callee(args)`
    | Literal(text: string)                         // any other literal, such as `true` or `0`
    | OtherExpr                                     // every remaining expression kind

  /** Which part of an if-statement the node below it in the chain lies in. */
  datatype Slot = InCondition | InThen | InElse

  /**
   * One strict ancestor of the analyzed node: an if-statement with its
   * condition, or a node of any other kind (block, statement, declaration,
   * else clause, method, class, compilation unit, ...).
   */
  datatype Ancestor = IfStmt(condition: Expr, slot: Slot) | NonIf

  /**
   * The position of the nearest if-statement in `chain`, which lists a node's
   * ancestors from the nearest up to the root; None when there is none.
   * Models FirstAncestorOrSelf<IfStatementSyntax>() on a node that is not
   * itself an if-statement.
   */
  function FirstIf(chain: seq<Ancestor>): (r: Option<nat>)
    ensures r.Some? ==> r.value < |chain| && chain[r.value].IfStmt?
    ensures r.Some? ==> forall j :: 0 <= j < r.value ==> !chain[j].IfStmt?
    ensures r.None? <==> forall j :: 0 <= j < |chain| ==> !chain[j].IfStmt?
  {
    if chain == [] then None
    else if chain[0].IfStmt? then Some(0)
    else match FirstIf(chain[1..])
      case None => None
      case Some(k) => Some(k + 1)
  }
}
