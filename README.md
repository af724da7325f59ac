# CheckNullable analyzer, modelled in Dafny

CheckNullable is a Roslyn diagnostic analyzer for C#. For every member access
`x.Value` where `x` is a bare identifier whose converted type is named
`Nullable`, it looks for an enclosing if-statement whose condition is
`x.HasValue` or `x != null`. If it finds none it reports the diagnostic
`CheckNullable` (severity warning, message
"Nullable '{0}' must be checked for null values before accessing 'Value' property",
with the identifier as its argument).

The model is pure, as the analyzer is:

- `wrappers.dfy` — `Option`, for the host's null results.
- `syntax.dfy` (module `Syntax`) — the expression shapes the analyzer tells
  apart (`Expr`), the ancestors of the analyzed node as a sequence, nearest
  first (`Ancestor`: an if-statement with its condition, or any other
  node), and `FirstIf`, the search done by `FirstAncestorOrSelf<IfStatementSyntax>`.
- `analyzer.dfy` (module `CheckNullable`) — the rule's constants, the guard
  matcher `ChecksHasValue`, the ancestor walk `UglyCheckHasValue` and the
  node analysis `AnalyzeNode`, which returns the finding it would report, if any.
  Each is specified against an independent reference: `IsGuard` (the two
  guard expressions `id.HasValue` and `id != null`) and `Guarded` (some
  ancestor if-statement has a guard as its condition).
- `properties.dfy` (module `CheckNullableProperties`) — lemmas about the
  matcher, the walk and the emission rule, and worked examples of the
  analyzer's documented behaviour.

The ancestor chain holds the strict ancestors of the `x.Value` node. That node
is a member access and never an if-statement, so the nearest if-statement "at
or above" it is the first `IfStmt` of the chain. When the walk resumes at an
if-statement's parent it searches the rest of the chain from the parent
itself on, as `FirstAncestorOrSelf` does. Each `IfStmt` entry also records
whether the access lies in its condition, its then-branch or its else-branch.
The analyzer never reads that; it is there so that `BranchInsensitive` can
state that it makes no difference.

Two consequences of the code's choices of syntax types:

- Lines 71 and 77 accept only a `MemberAccessExpressionSyntax` or a
  `BinaryExpressionSyntax`. So `!x.HasValue` (a `PrefixUnaryExpressionSyntax`)
  and `(x.HasValue)` (a `ParenthesizedExpressionSyntax`) are rejected
  (`NearMissesRejected`).
- Line 66 resumes at the if-statement's parent, and line 60 then calls
  `FirstAncestorOrSelf`, which tests that parent itself before its ancestors.
  In `if (x.HasValue) if (other) { var y = x.Value; }` the parent of the inner
  if is the outer if, and its guard is found
  (`ExampleGuardDirectlyAroundIf`). A search that tested only the parent's
  strict ancestors would skip it.

## Model

| member | source | states |
|---|---|---|
| Syntax.FirstIf | CheckNullable/DiagnosticAnalyzer.cs:60-61 | returns the position of the nearest if-statement among the ancestors, with no if-statement below it, and returns None exactly when there is no if-statement at all |
| CheckNullable.ChecksHasValue | CheckNullable/DiagnosticAnalyzer.cs:69-88 | an expression guards `id` exactly when it is one of two expressions: `id.HasValue` or `id != null` |
| CheckNullable.UglyCheckHasValue | CheckNullable/DiagnosticAnalyzer.cs:58-67 | the walk answers true exactly when some if-statement among the ancestors has a guard for the identifier as its condition; it terminates because each step resumes strictly higher in the chain |
| CheckNullable.AnalyzeNode | CheckNullable/DiagnosticAnalyzer.cs:32-55 | a finding is returned exactly when the node is `id.Value` on a bare identifier, its converted type is known and named Nullable, and no ancestor if-statement guards `id`; the finding is the rule at that node with `id` as its message argument; at most one finding per node |
| CheckNullableProperties.HasValueGuardShape | CheckNullable/DiagnosticAnalyzer.cs:71-75 | a member access is a guard exactly when its receiver equals the target identifier and its member is `HasValue`, so `x.Value` is none |
| CheckNullableProperties.NotNullGuardShape | CheckNullable/DiagnosticAnalyzer.cs:77-85 | a binary expression is a guard exactly when its left operand is the target identifier, its operator is `!=` and its right operand is the null literal |
| CheckNullableProperties.OtherShapesRejected | CheckNullable/DiagnosticAnalyzer.cs:87 | no expression other than a member access or a binary expression is a guard |
| CheckNullableProperties.NearMissesRejected | CheckNullable/DiagnosticAnalyzer.cs:71-87 | `null != x`, `x == null`, `x != null && y`, `x.HasValue \|\| y`, `!x.HasValue`, `(x.HasValue)`, `(x) != null`, `x.Value`, `x.HasValue()` and `true` are not guards for `x` |
| CheckNullableProperties.GuardNamesOneIdentifier | CheckNullable/DiagnosticAnalyzer.cs:73-82 | no expression guards two different identifiers |
| CheckNullableProperties.NoIfMeansUnguarded | CheckNullable/DiagnosticAnalyzer.cs:60-61 | with no if-statement among the ancestors the walk answers false |
| CheckNullableProperties.NonMatchingIfIsSkipped | CheckNullable/DiagnosticAnalyzer.cs:63-66 | a nearest if-statement whose condition is no guard does not stop the walk: the answer is that of the chain above it |
| CheckNullableProperties.GuardAtAnyDepth | CheckNullable/DiagnosticAnalyzer.cs:58-67 | a guarding if-statement at any depth is found, whatever lies below and above it |
| CheckNullableProperties.MoreAncestorsKeepGuard | CheckNullable/DiagnosticAnalyzer.cs:58-67 | a guarded access stays guarded when ancestors are added below or above the chain |
| CheckNullableProperties.NonIfAncestorsIrrelevant | CheckNullable/DiagnosticAnalyzer.cs:60 | inserting an ancestor that is not an if-statement anywhere in the chain does not change the answer |
| CheckNullableProperties.BranchInsensitive | CheckNullable/DiagnosticAnalyzer.cs:60-63 | whether the access lies in the condition, the then-branch or the else-branch of an if-statement does not change the answer |
| CheckNullableProperties.OtherIdentifierGuardsDoNotCount | CheckNullable/DiagnosticAnalyzer.cs:73-82 | if every ancestor if-statement guards another identifier, the target identifier is unguarded |
| CheckNullableProperties.NonCandidateNeverReported | CheckNullable/DiagnosticAnalyzer.cs:34-41 | a node that is not a member access, whose receiver is not a bare identifier, or whose member is not `Value` is never reported |
| CheckNullableProperties.OtherTypeNeverReported | CheckNullable/DiagnosticAnalyzer.cs:43-48 | an access whose converted type is unresolved or not named Nullable is never reported |
| CheckNullableProperties.ReportedIffUnguarded | CheckNullable/DiagnosticAnalyzer.cs:51-54 | a candidate access on a Nullable is reported exactly when the walk answers false, with the identifier as the message argument |
| CheckNullableProperties.FindingIdentity | CheckNullable/DiagnosticAnalyzer.cs:15-20 | every finding carries rule id `CheckNullable` at warning severity, is located at the analyzed node and has the receiver identifier as its one message argument |
| CheckNullableProperties.UnguardedAccessReported | CheckNullable/DiagnosticAnalyzer.cs:51-54 | a candidate access with no enclosing if-statement is always reported |
| CheckNullableProperties.ExampleNoGuard | CheckNullable/DiagnosticAnalyzer.cs:50-54 | `var y = x.Value;` with no enclosing if-statement is reported, naming `x`; so is an access after `if (cond) { if (x.HasValue) {} }` or after `if (!x.HasValue) return;`, since neither if-statement encloses it and there is no control-flow analysis |
| CheckNullableProperties.ExampleHasValueGuard | CheckNullable/DiagnosticAnalyzer.cs:71-75 | an access inside `if (x.HasValue)` is not reported |
| CheckNullableProperties.ExampleNotNullGuard | CheckNullable/DiagnosticAnalyzer.cs:79-84 | an access inside `if (x != null)` is not reported |
| CheckNullableProperties.ExampleOtherIdentifier | CheckNullable/DiagnosticAnalyzer.cs:73 | an access to `x` inside `if (z.HasValue)` is reported |
| CheckNullableProperties.ExampleNestedGuard | CheckNullable/DiagnosticAnalyzer.cs:63-66 | an access inside `if (x.HasValue)` nested in `if (outer)` is not reported |
| CheckNullableProperties.ExampleGuardAboveNonMatchingIf | CheckNullable/DiagnosticAnalyzer.cs:66 | an access inside `if (other)` nested in `if (x.HasValue)` is not reported: the walk goes past the inner if |
| CheckNullableProperties.ExampleGuardDirectlyAroundIf | CheckNullable/DiagnosticAnalyzer.cs:60-66 | an access inside `if (other)` written directly as the body of `if (x.HasValue)` is not reported: the walk resumes at the outer if, which is that parent itself |
| CheckNullableProperties.ExampleElseBranchCountsAsGuarded | CheckNullable/DiagnosticAnalyzer.cs:60-63 | an access in the else-branch of `if (x.HasValue)` is not reported, although `x` has no value there |
| CheckNullableProperties.ExampleComposedConditionNotAGuard | CheckNullable/DiagnosticAnalyzer.cs:77-85 | an access in the condition `x != null && x.Value > 0` is reported: a composed condition is no guard |

## Left out

- The semantic model's type lookup and the cancellation token (`GetTypeInfo` at line 43): the converted type's name is an input, `Option<string>`, with None for an unresolved type. The token is only passed to that lookup. The walk itself cannot be cancelled, so no cancellation is modelled.
- The `semanticModel` parameter of `uglyCheckHasValue` and `checksHasValue`: it is never used, so it is dropped.
- Host plumbing: the analyzer attributes, `SupportedDiagnostics`, `SyntaxKindsOfInterest`, `Diagnostic.Create` and the `addDiagnostic` callback. `AnalyzeNode` accepts any expression and does its own filtering. It returns the finding instead of passing it to a callback.
- Source locations: a finding's location is the analyzed node itself, not a text span.
- Message formatting: substituting the argument into `MessageFormat` is done by the host. The model keeps the format string and the argument.
- Roslyn's tree navigation: `FirstAncestorOrSelf` and `Parent` are replaced by an explicit ancestor sequence. Reaching the root ends the sequence; the source would then call `FirstAncestorOrSelf` on a null parent, which cannot happen for an if-statement in a parsed file.
- `IsEquivalentTo` (line 73) is modelled as structural equality of `Expr` values, which carry no trivia, so two spellings that differ only in whitespace or comments compare equal.
- Identifier comparison at line 82: it compares the token values as `object` with `==`, which is reference equality. It works because Roslyn interns identifier text. The model compares the names as strings, assuming that interning.
- Identifier text: `ValueText`, `Identifier.Value` and `ToString()` of an identifier are all the one `name` of `Ident`. The verbatim prefix in `@x` is not modelled.
- `p->HasValue` is also a `MemberAccessExpressionSyntax` and is accepted like `p.HasValue`. The model has a single member-access shape, so it does not tell the two apart.
- Concurrency: the analyzer keeps no mutable state, so there is nothing to model.
