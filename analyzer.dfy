/**
 * The CheckNullable diagnostic analyzer: it reports every `x.Value` on a
 * variable of type Nullable that is not guarded by `x.HasValue` or
 * `x != null` in the condition of some enclosing if-statement.
 */
module CheckNullable {
  import opened Wrappers
  import opened Syntax

  // The rule's identity, as registered with the host.
  const DiagnosticId: string := "CheckNullable"
  const Description: string := "Nullable is not checked before use"
  const MessageFormat: string := "Nullable '{0}' must be checked for null values before accessing 'Value' property"
  const Category: string := "NullCheck"

  datatype Severity = Hidden | Info | Warning | Error

  /** The fields of a diagnostic descriptor that this rule sets. */
  datatype Descriptor = Descriptor(id: string, title: string, messageFormat: string, category: string, severity: Severity)

  const Rule: Descriptor := Descriptor(DiagnosticId, Description, MessageFormat, Category, Warning)

  /** A reported diagnostic: the rule, the node it is reported at, and the arguments of its message. */
  datatype Finding = Finding(rule: Descriptor, location: Expr, messageArgs: seq<string>)

  // The fixed names the analyzer compares against.
  const ValueName: string := "Value"
  const HasValueName: string := "HasValue"
  const NotEqualsOp: string := "!="
  const NullableTypeName: string := "Nullable"

  /** The guard `id.HasValue`. */
  function HasValueGuard(id: string): Expr {
    MemberAccess(Ident(id), HasValueName)
  }

  /** The guard `id != null`. */
  function NotNullGuard(id: string): Expr {
    Binary(Ident(id), NotEqualsOp, NullLit)
  }

  /** The whole whitelist of guards for `id`: exactly two expressions. */
  predicate IsGuard(e: Expr, id: string) {
    e == HasValueGuard(id) || e == NotNullGuard(id)
  }

  /** Some if-statement among the ancestors has a guard for `id` as its condition. */
  ghost predicate Guarded(chain: seq<Ancestor>, id: string) {
    exists k :: 0 <= k < |chain| && chain[k].IfStmt? && IsGuard(chain[k].condition, id)
  }

  /** The candidate shape `id.Value` with `id` a bare identifier. */
  predicate IsValueAccess(node: Expr) {
    node.MemberAccess? && node.receiver.Ident? && node.member == ValueName
  }

  /**
   * Whether the expression `node` guards the identifier named `identifier`:
   * a member access is tested by the equivalence of its receiver with the
   * identifier and by its member name, a binary expression by the name of its
   * left identifier, its operator text and a null literal on the right, and
   * any other expression is no guard.
   */
  function ChecksHasValue(node: Expr, identifier: string): (r: bool)
    ensures r <==> IsGuard(node, identifier)
  {
    match node
    case MemberAccess(receiver, member) =>
      receiver == Ident(identifier) && member == HasValueName
    case Binary(left, op, right) =>
      left.Ident? && left.name == identifier && op == NotEqualsOp && right.NullLit?
    case _ => false
  }

  /**
   * Whether the access whose ancestors are `chain` is guarded: take the
   * nearest if-statement, accept if its condition guards the identifier, and
   * otherwise start again from that if-statement's parent. Falling off the
   * top of the chain means no guard was found.
   */
  function UglyCheckHasValue(chain: seq<Ancestor>, identifier: string): (r: bool)
    ensures r <==> Guarded(chain, identifier)
    decreases |chain|
  {
    match FirstIf(chain)
    case None => false
    case Some(k) =>
      if ChecksHasValue(chain[k].condition, identifier) then true
      else
        var rest := chain[k + 1..];
        assert forall j :: 0 <= j < |rest| ==> rest[j] == chain[k + 1 + j];
        UglyCheckHasValue(rest, identifier)
  }

  /**
   * The analysis of one syntax node: a finding exactly when the node is
   * `id.Value` on a bare identifier whose converted type is named Nullable
   * and no enclosing if-statement guards `id`. The converted type is what
   * the host's semantic model resolves for the identifier (None when it
   * resolves none); `chain` lists the node's ancestors, nearest first.
   */
  function AnalyzeNode(node: Expr, convertedType: Option<string>, chain: seq<Ancestor>): (r: Option<Finding>)
    ensures r.Some? <==>
      IsValueAccess(node) && convertedType == Some(NullableTypeName) && !Guarded(chain, node.receiver.name)
    ensures r.Some? ==> r.value == Finding(Rule, node, [node.receiver.name])
  {
    if !node.MemberAccess? then None
    else if !node.receiver.Ident? then None
    else if node.member != ValueName then None
    else if convertedType.None? then None
    else if convertedType.value != NullableTypeName then None
    else if UglyCheckHasValue(chain, node.receiver.name) then None
    else Some(Finding(Rule, node, [node.receiver.name]))
  }
}
