/**
 * Properties of the CheckNullable analyzer: which expressions the guard
 * matcher accepts, what the ancestor walk finds, and when a finding is
 * emitted, followed by worked examples of the documented behaviour.
 */
module CheckNullableProperties {
  import opened Wrappers
  import opened Syntax
  import opened CheckNullable

  // ---------------------------------------------------------------------
  // The guard matcher

  /** A member access guards `id` exactly when it is `id.HasValue`; `id.Value` and other members do not. */
  lemma HasValueGuardShape(receiver: Expr, member: string, id: string)
    ensures ChecksHasValue(MemberAccess(receiver, member), id) <==> receiver == Ident(id) && member == "HasValue"
  {
  }

  /** A binary expression guards `id` exactly when its left operand is `id`, its operator `!=` and its right operand `null`. */
  lemma NotNullGuardShape(left: Expr, op: string, right: Expr, id: string)
    ensures ChecksHasValue(Binary(left, op, right), id) <==> left == Ident(id) && op == "!=" && right == NullLit
  {
  }

  /** No expression other than a member access or a binary expression is a guard. */
  lemma OtherShapesRejected(e: Expr, id: string)
    requires !e.MemberAccess? && !e.Binary?
    ensures !ChecksHasValue(e, id)
  {
  }

  /** Near misses that the matcher rejects: reversed, negated, parenthesised and composed guards. */
  lemma NearMissesRejected(x: string, y: Expr)
    ensures !ChecksHasValue(Binary(NullLit, "!=", Ident(x)), x)          // null != x
    ensures !ChecksHasValue(Binary(Ident(x), "==", NullLit), x)          // x == null
    ensures !ChecksHasValue(Binary(NotNullGuard(x), "&&", y), x)         // x != null && y
    ensures !ChecksHasValue(Binary(HasValueGuard(x), "||", y), x)        // x.HasValue || y
    ensures !ChecksHasValue(Prefix("!", HasValueGuard(x)), x)            // !x.HasValue
    ensures !ChecksHasValue(Paren(HasValueGuard(x)), x)                  // (x.HasValue)
    ensures !ChecksHasValue(Binary(Paren(Ident(x)), "!=", NullLit), x)   // (x) != null
    ensures !ChecksHasValue(MemberAccess(Ident(x), "Value"), x)          // x.Value
    ensures !ChecksHasValue(Invocation(MemberAccess(Ident(x), "HasValue"), []), x)  // x.HasValue()
    ensures !ChecksHasValue(Literal("true"), x)                          // true
  {
  }

  /** A guard names one identifier: nothing guards two different identifiers at once. */
  lemma GuardNamesOneIdentifier(e: Expr, a: string, b: string)
    requires ChecksHasValue(e, a) && ChecksHasValue(e, b)
    ensures a == b
  {
  }

  // ---------------------------------------------------------------------
  // The ancestor walk

  /** Without an if-statement above the access the walk finds no guard. */
  lemma NoIfMeansUnguarded(chain: seq<Ancestor>, id: string)
    requires forall j :: 0 <= j < |chain| ==> !chain[j].IfStmt?
    ensures !UglyCheckHasValue(chain, id)
  {
  }

  /** An if-statement whose condition is not a guard does not stop the walk: it continues above it. */
  lemma NonMatchingIfIsSkipped(chain: seq<Ancestor>, k: nat, id: string)
    requires FirstIf(chain) == Some(k)
    requires !ChecksHasValue(chain[k].condition, id)
    ensures UglyCheckHasValue(chain, id) == UglyCheckHasValue(chain[k + 1..], id)
  {
  }

  /** A guarding if-statement at any depth, however many non-guarding ones lie below it, is found. */
  lemma {:induction false} GuardAtAnyDepth(inner: seq<Ancestor>, condition: Expr, slot: Slot, outer: seq<Ancestor>, id: string)
    requires ChecksHasValue(condition, id)
    ensures UglyCheckHasValue(inner + [IfStmt(condition, slot)] + outer, id)
  {
    var chain := inner + [IfStmt(condition, slot)] + outer;
    assert chain[|inner|] == IfStmt(condition, slot);
  }

  /** A guarded access stays guarded when more ancestors are added below or above the chain. */
  lemma {:induction false} MoreAncestorsKeepGuard(inner: seq<Ancestor>, chain: seq<Ancestor>, outer: seq<Ancestor>, id: string)
    requires UglyCheckHasValue(chain, id)
    ensures UglyCheckHasValue(inner + chain + outer, id)
  {
    var k :| 0 <= k < |chain| && chain[k].IfStmt? && IsGuard(chain[k].condition, id);
    assert (inner + chain + outer)[|inner| + k] == chain[k];
  }

  /** Ancestors that are not if-statements have no effect on the result. */
  lemma {:induction false} NonIfAncestorsIrrelevant(below: seq<Ancestor>, above: seq<Ancestor>, id: string)
    ensures UglyCheckHasValue(below + [NonIf] + above, id) == UglyCheckHasValue(below + above, id)
  {
    var long, short := below + [NonIf] + above, below + above;
    if Guarded(long, id) {
      var k :| 0 <= k < |long| && long[k].IfStmt? && IsGuard(long[k].condition, id);
      var j := if k < |below| then k else k - 1;
      assert short[j] == long[k];
    }
    if Guarded(short, id) {
      var j :| 0 <= j < |short| && short[j].IfStmt? && IsGuard(short[j].condition, id);
      var k := if j < |below| then j else j + 1;
      assert long[k] == short[j];
    }
  }

  /**
   * The walk does not look at where the access lies in a guarding
   * if-statement: condition, then-branch and else-branch count alike.
   */
  lemma {:induction false} BranchInsensitive(chain: seq<Ancestor>, i: nat, slot: Slot, id: string)
    requires i < |chain| && chain[i].IfStmt?
    ensures UglyCheckHasValue(chain[i := IfStmt(chain[i].condition, slot)], id) == UglyCheckHasValue(chain, id)
  {
    var moved := chain[i := IfStmt(chain[i].condition, slot)];
    if Guarded(chain, id) {
      var k :| 0 <= k < |chain| && chain[k].IfStmt? && IsGuard(chain[k].condition, id);
      assert moved[k].IfStmt? && moved[k].condition == chain[k].condition;
    }
    if Guarded(moved, id) {
      var k :| 0 <= k < |moved| && moved[k].IfStmt? && IsGuard(moved[k].condition, id);
      assert chain[k].IfStmt? && chain[k].condition == moved[k].condition;
    }
  }

  /** Guards on another identifier never validate the target identifier. */
  lemma OtherIdentifierGuardsDoNotCount(chain: seq<Ancestor>, target: string, other: string)
    requires target != other
    requires forall j :: 0 <= j < |chain| && chain[j].IfStmt? ==> ChecksHasValue(chain[j].condition, other)
    ensures !UglyCheckHasValue(chain, target)
  {
  }

  // ---------------------------------------------------------------------
  // Emission

  /** Only `id.Value` on a bare identifier is ever reported; `GetValue().Value`, `a.b.Value` and `x.HasValue` never are. */
  lemma NonCandidateNeverReported(node: Expr, convertedType: Option<string>, chain: seq<Ancestor>)
    requires !(node.MemberAccess? && node.receiver.Ident? && node.member == "Value")
    ensures AnalyzeNode(node, convertedType, chain) == None
  {
  }

  /** An access is not reported unless the converted type was resolved and is named Nullable. */
  lemma OtherTypeNeverReported(node: Expr, convertedType: Option<string>, chain: seq<Ancestor>)
    requires convertedType != Some("Nullable")
    ensures AnalyzeNode(node, convertedType, chain) == None
  {
  }

  /** A candidate access is reported exactly when the walk finds no guard, once, naming the identifier. */
  lemma ReportedIffUnguarded(x: string, chain: seq<Ancestor>)
    ensures AnalyzeNode(MemberAccess(Ident(x), "Value"), Some("Nullable"), chain) ==
      if UglyCheckHasValue(chain, x) then None
      else Some(Finding(Rule, MemberAccess(Ident(x), "Value"), [x]))
  {
  }

  /** The finding carries the rule `CheckNullable` at warning severity and the identifier as its one message argument. */
  lemma FindingIdentity(node: Expr, convertedType: Option<string>, chain: seq<Ancestor>)
    requires AnalyzeNode(node, convertedType, chain).Some?
    ensures var f := AnalyzeNode(node, convertedType, chain).value;
      f.rule.id == "CheckNullable" && f.rule.severity == Warning && f.location == node &&
      node.receiver.Ident? && f.messageArgs == [node.receiver.name]
  {
  }

  /** Without an enclosing if-statement every candidate access is reported. */
  lemma UnguardedAccessReported(x: string, chain: seq<Ancestor>)
    requires forall j :: 0 <= j < |chain| ==> !chain[j].IfStmt?
    ensures AnalyzeNode(MemberAccess(Ident(x), "Value"), Some("Nullable"), chain) == Some(Finding(Rule, MemberAccess(Ident(x), "Value"), [x]))
  {
  }

  // ---------------------------------------------------------------------
  // Worked examples. A chain lists the ancestors of `x.Value` from the
  // nearest up; each expression, statement, block or declaration around it
  // is a NonIf. By NonIfAncestorsIrrelevant their number does not matter.

  const XValue: Expr := MemberAccess(Ident("x"), "Value")

  /** The ancestors of a statement directly in a method body: its block, the method, the class and the file. */
  const MethodTop: seq<Ancestor> := [NonIf, NonIf, NonIf, NonIf]

  /** `var y = x.Value;`: the initializer `= x.Value`, the declarator, the declaration and the statement. */
  const InDeclaration: seq<Ancestor> := [NonIf, NonIf, NonIf, NonIf]

  /**
   * `int? x; var y = x.Value;` is reported, naming x. So are
   * `if (cond) { if (x.HasValue) {} } var y = x.Value;`, whose guard does not
   * enclose the access, and `if (!x.HasValue) return; var y = x.Value;`, whose
   * early return is not understood: in all three the access has no if-statement
   * among its ancestors.
   */
  lemma ExampleNoGuard()
    ensures AnalyzeNode(XValue, Some("Nullable"), InDeclaration + MethodTop) == Some(Finding(Rule, XValue, ["x"]))
  {
  }

  /** `if (x.HasValue) { var y = x.Value; }` is not reported. */
  lemma ExampleHasValueGuard()
    ensures AnalyzeNode(XValue, Some("Nullable"), InDeclaration + [NonIf, IfStmt(HasValueGuard("x"), InThen)] + MethodTop) == None
  {
    GuardAtAnyDepth(InDeclaration + [NonIf], HasValueGuard("x"), InThen, MethodTop, "x");
    assert InDeclaration + [NonIf, IfStmt(HasValueGuard("x"), InThen)] + MethodTop
      == InDeclaration + [NonIf] + [IfStmt(HasValueGuard("x"), InThen)] + MethodTop;
  }

  /** `if (x != null) { var y = x.Value; }` is not reported. */
  lemma ExampleNotNullGuard()
    ensures AnalyzeNode(XValue, Some("Nullable"), InDeclaration + [NonIf, IfStmt(NotNullGuard("x"), InThen)] + MethodTop) == None
  {
    GuardAtAnyDepth(InDeclaration + [NonIf], NotNullGuard("x"), InThen, MethodTop, "x");
    assert InDeclaration + [NonIf, IfStmt(NotNullGuard("x"), InThen)] + MethodTop
      == InDeclaration + [NonIf] + [IfStmt(NotNullGuard("x"), InThen)] + MethodTop;
  }

  /** `if (z.HasValue) { var y = x.Value; }` is reported: the guard is for z. */
  lemma ExampleOtherIdentifier()
    ensures AnalyzeNode(XValue, Some("Nullable"), InDeclaration + [NonIf, IfStmt(HasValueGuard("z"), InThen)] + MethodTop).Some?
  {
  }

  /** `if (outer) { if (x.HasValue) { var y = x.Value; } }` is not reported. */
  lemma ExampleNestedGuard()
    ensures AnalyzeNode(XValue, Some("Nullable"),
      InDeclaration + [NonIf, IfStmt(HasValueGuard("x"), InThen)] + [NonIf, IfStmt(Ident("outer"), InThen)] + MethodTop) == None
  {
    GuardAtAnyDepth(InDeclaration + [NonIf], HasValueGuard("x"), InThen, [NonIf, IfStmt(Ident("outer"), InThen)] + MethodTop, "x");
    assert InDeclaration + [NonIf, IfStmt(HasValueGuard("x"), InThen)] + [NonIf, IfStmt(Ident("outer"), InThen)] + MethodTop
      == InDeclaration + [NonIf] + [IfStmt(HasValueGuard("x"), InThen)] + ([NonIf, IfStmt(Ident("outer"), InThen)] + MethodTop);
  }

  /** `if (x.HasValue) { if (other) { var y = x.Value; } }` is not reported: the walk passes the inner if. */
  lemma ExampleGuardAboveNonMatchingIf()
    ensures AnalyzeNode(XValue, Some("Nullable"),
      InDeclaration + [NonIf, IfStmt(Ident("other"), InThen)] + [NonIf, IfStmt(HasValueGuard("x"), InThen)] + MethodTop) == None
  {
    GuardAtAnyDepth(InDeclaration + [NonIf, IfStmt(Ident("other"), InThen), NonIf], HasValueGuard("x"), InThen, MethodTop, "x");
    assert InDeclaration + [NonIf, IfStmt(Ident("other"), InThen)] + [NonIf, IfStmt(HasValueGuard("x"), InThen)] + MethodTop
      == InDeclaration + [NonIf, IfStmt(Ident("other"), InThen), NonIf] + [IfStmt(HasValueGuard("x"), InThen)] + MethodTop;
  }

  /**
   * `if (x.HasValue) if (other) { var y = x.Value; }` is not reported: the
   * outer if is the inner if's parent, and the walk tests that parent itself.
   */
  lemma ExampleGuardDirectlyAroundIf()
    ensures AnalyzeNode(XValue, Some("Nullable"),
      InDeclaration + [NonIf, IfStmt(Ident("other"), InThen), IfStmt(HasValueGuard("x"), InThen)] + MethodTop) == None
  {
    GuardAtAnyDepth(InDeclaration + [NonIf, IfStmt(Ident("other"), InThen)], HasValueGuard("x"), InThen, MethodTop, "x");
    assert InDeclaration + [NonIf, IfStmt(Ident("other"), InThen), IfStmt(HasValueGuard("x"), InThen)] + MethodTop
      == InDeclaration + [NonIf, IfStmt(Ident("other"), InThen)] + [IfStmt(HasValueGuard("x"), InThen)] + MethodTop;
  }

  /** `if (x.HasValue) { } else { var y = x.Value; }` is not reported either, although x has no value there. */
  lemma ExampleElseBranchCountsAsGuarded()
    ensures AnalyzeNode(XValue, Some("Nullable"), InDeclaration + [NonIf, NonIf, IfStmt(HasValueGuard("x"), InElse)] + MethodTop) == None
  {
    GuardAtAnyDepth(InDeclaration + [NonIf, NonIf], HasValueGuard("x"), InElse, MethodTop, "x");
    assert InDeclaration + [NonIf, NonIf, IfStmt(HasValueGuard("x"), InElse)] + MethodTop
      == InDeclaration + [NonIf, NonIf] + [IfStmt(HasValueGuard("x"), InElse)] + MethodTop;
  }

  /** `if (x != null && x.Value > 0) { }` is reported: a composed condition is no guard. */
  lemma ExampleComposedConditionNotAGuard()
    ensures AnalyzeNode(XValue, Some("Nullable"),
      [NonIf, NonIf, IfStmt(Binary(NotNullGuard("x"), "&&", Binary(XValue, ">", Literal("0"))), InCondition)] + MethodTop).Some?
  {
  }
}
