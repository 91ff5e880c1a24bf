# Exhaustive switch on enums, modelled in Dafny

ExhaustiveSwitchOnEnums is a Roslyn analyzer with a code fix for C#. A `switch` statement or
`switch` expression over an enum value often guards its default branch with
`throw new ArgumentOutOfRangeException(...)`. The analyzer warns (rule `ExhaustiveSwitchOnEnums`,
category `Usage`, severity Warning, enabled by default) when such a switch does not name every
field of the enum. The "Make exhaustive" code fix rebuilds the switch with one new branch per
missing field. Each new branch throws `NotImplementedException`. The new branches go after the
existing non-default branches and before the default ones.

The model works on an abstract syntax tree and an abstract semantic model:

- `Syntax` holds expressions, patterns, labels, statements, switch sections and expression arms.
  It also holds the "descendant nodes" walks the code relies on.
  `SemanticModel` answers two questions: the type of an expression, and the symbol a member
  access `Target.Name` denotes (possibly none).
- `Linq` holds the LINQ operators the code uses (`Where`, `Select`, `SelectMany`, dropping
  nulls), each specified by what it keeps, plus lemmas about filtering.
- `SwitchHelpers` and `SwitchExpressionHelpers` classify branches and compute the missing
  enum members.
- `Analyzer` decides what is reported for one switch. It also models the exception thrown by
  `Single()` as an explicit `Faulted` outcome.
- `FixProvider` builds the fixed switch and proves that the fix leaves nothing to report.
- `Scenarios` and `ExpressionScenarios` state, as lemmas over the model, the outcomes the
  repository's three test cases expect. They compare tree shape, not text, and positions are
  abstract. They also cover three edge cases: a switch whose default section does not throw the
  guard, an enum switch without a default section, and a label with an `or` pattern.

All four core files are pure computations over immutable syntax trees, so every operation is a
function. The fix returns the new switch rather than a new document.

## Model

| member | source | states |
|---|---|---|
| SwitchHelpers.NestedDefaultMakesDefault | ExhaustiveSwitchOnEnums/SwitchHelpers.cs:14 | a `default:` label of a switch nested in a block of a section's body makes that section a default section, wherever the block stands among the statements |
| SwitchHelpers.GetDefaultSections | ExhaustiveSwitchOnEnums/SwitchHelpers.cs:11-17 | keeps exactly the sections with a `default` label among their descendants, as a subsequence of the sections in their order |
| SwitchHelpers.GetNonDefaultSections | ExhaustiveSwitchOnEnums/SwitchHelpers.cs:19-25 | keeps exactly the sections without such a label, in order |
| SwitchHelpers.SectionsPartition | ExhaustiveSwitchOnEnums/SwitchHelpers.cs:11-25 | the default and non-default sections together are the sections: their lengths add up and their multisets sum to the sections' multiset |
| SwitchHelpers.EnumFields | ExhaustiveSwitchOnEnums/SwitchHelpers.cs:32-34 | keeps exactly the members of kind Field, in declaration order |
| SwitchHelpers.CaseSwitchLabelsCover | ExhaustiveSwitchOnEnums/SwitchHelpers.cs:36-41 | a symbol is among the resolved label symbols iff the first member access of some label of some section resolves to it |
| SwitchHelpers.CaseSwitchLabels | ExhaustiveSwitchOnEnums/SwitchHelpers.cs:36-41 | a value is among the label symbols iff it is what the first member access of some label of some section resolves to; labels without a member access contribute nothing |
| SwitchHelpers.ResolvedSymbolIsNamed | ExhaustiveSwitchOnEnums/SwitchHelpers.cs:36-41 | each resolved label symbol comes from the first member access of some label of some section |
| SwitchHelpers.NamedSymbolIsResolved | ExhaustiveSwitchOnEnums/SwitchHelpers.cs:36-41 | the first member access of every label of every section is resolved and kept |
| SwitchHelpers.GetMissingEnumMembers | ExhaustiveSwitchOnEnums/SwitchHelpers.cs:27-46 | a field is missing iff no label's first member access resolves to it; the result keeps declaration order; it is empty iff every field is covered |
| SwitchHelpers.NonCoveringSectionKeepsMissing | ExhaustiveSwitchOnEnums/SwitchHelpers.cs:36-45 | inserting anywhere a section whose labels name no field of the enum leaves the missing members unchanged |
| SwitchHelpers.MoreSectionsFewerMissing | ExhaustiveSwitchOnEnums/SwitchHelpers.cs:43-45 | a switch holding every section of another misses a subsequence of the other's missing members |
| SwitchHelpers.AllCaseSwitchLabels | ExhaustiveSwitchOnEnums/SwitchHelpers.cs:36-41 | corrected label symbols: a value is among them iff some member access anywhere in some label of some section resolves to it |
| SwitchHelpers.ResolvedAccessIsNamed | ExhaustiveSwitchOnEnums/SwitchHelpers.cs:36-41 | each corrected label symbol comes from a member access in some label |
| SwitchHelpers.NamedAccessIsResolved | ExhaustiveSwitchOnEnums/SwitchHelpers.cs:36-41 | every member access in every label is resolved and kept by the corrected collection |
| SwitchHelpers.GetMissingEnumMembersIntended | ExhaustiveSwitchOnEnums/SwitchHelpers.cs:27-46 | corrected missing members: a field is missing iff no member access in any label resolves to it; declaration order kept; empty iff every field is handled |
| SwitchHelpers.CoveredIsHandled | ExhaustiveSwitchOnEnums/SwitchHelpers.cs:38 | a field the first member access of a label covers is handled in the corrected sense |
| SwitchHelpers.IntendedMissesFewer | ExhaustiveSwitchOnEnums/SwitchHelpers.cs:36-45 | the corrected missing members are a subsequence of the missing members as written |
| SwitchExpressionHelpers.GetDefaultArms | ExhaustiveSwitchOnEnums/SwitchExpressionHelpers.cs:10-16 | keeps exactly the arms whose pattern is the discard `_`, in order |
| SwitchExpressionHelpers.GetNonDefaultArms | ExhaustiveSwitchOnEnums/SwitchExpressionHelpers.cs:18-24 | keeps exactly the other arms, in order |
| SwitchExpressionHelpers.ArmsPartition | ExhaustiveSwitchOnEnums/SwitchExpressionHelpers.cs:10-24 | the discard and other arms together are the arms, by length and multiset |
| SwitchExpressionHelpers.CaseSwitchLabelsCover | ExhaustiveSwitchOnEnums/SwitchExpressionHelpers.cs:35-39 | a symbol is among the resolved symbols iff some member access anywhere in some arm resolves to it |
| SwitchExpressionHelpers.CaseSwitchLabels | ExhaustiveSwitchOnEnums/SwitchExpressionHelpers.cs:35-39 | a value is among the arm symbols iff some member access anywhere in some arm (pattern, `when` clause or result) resolves to it |
| SwitchExpressionHelpers.ResolvedSymbolIsNamed | ExhaustiveSwitchOnEnums/SwitchExpressionHelpers.cs:35-39 | each resolved symbol comes from a member access somewhere in some arm |
| SwitchExpressionHelpers.NamedSymbolIsResolved | ExhaustiveSwitchOnEnums/SwitchExpressionHelpers.cs:35-39 | every member access anywhere in every arm is resolved and kept |
| SwitchExpressionHelpers.GetMissingEnumMembers | ExhaustiveSwitchOnEnums/SwitchExpressionHelpers.cs:26-44 | a field is missing iff no member access in any arm (pattern, `when` clause or result) resolves to it; declaration order kept; empty iff every field is covered |
| SwitchExpressionHelpers.MoreArmsFewerMissing | ExhaustiveSwitchOnEnums/SwitchExpressionHelpers.cs:41-43 | a switch expression holding every arm of another misses a subsequence of the other's missing members |
| Analyzer.Rule | ExhaustiveSwitchOnEnums/Analyzer.cs:31-40 | the single rule: id `ExhaustiveSwitchOnEnums`, category `Usage`, severity Warning, enabled by default |
| Analyzer.AnalyzeSwitch | ExhaustiveSwitchOnEnums/Analyzer.cs:54-90 | fails exactly when the switch is over an enum and there is not exactly one default section; otherwise reports nothing or one diagnostic of the rule at the switch; reports iff the switch is over an enum, the single default section throws a new `ArgumentOutOfRangeException` somewhere inside, and some field is not covered |
| Analyzer.AnalyzeSwitchExpression | ExhaustiveSwitchOnEnums/Analyzer.cs:92-128 | the same for a switch expression, with the discard arm and `throw` expressions in place of the default section and `throw` statements |
| Analyzer.GuardFoundAtAnyDepth | ExhaustiveSwitchOnEnums/Analyzer.cs:66-71 | a guarding `throw` still counts when wrapped in a block or another statement and surrounded by other statements |
| Analyzer.ArmGuardFoundAtAnyDepth | ExhaustiveSwitchOnEnums/Analyzer.cs:104-109 | a guarding `throw` expression still counts when nested among the children of a larger result expression |
| Analyzer.CreatesOutOfRange | ExhaustiveSwitchOnEnums/Analyzer.cs:68-70 | predicate: the expression is an object creation whose type is named `ArgumentOutOfRangeException`; its meaning enters the contracts of `AnalyzeSwitch` and `AnalyzeSwitchExpression` |
| Analyzer.SectionThrowsOutOfRange | ExhaustiveSwitchOnEnums/Analyzer.cs:66-71 | predicate: some `throw` statement among the section's descendant statements throws such an object creation; its reach is stated by `GuardFoundAtAnyDepth` |
| Analyzer.ArmThrowsOutOfRange | ExhaustiveSwitchOnEnums/Analyzer.cs:104-109 | predicate: some `throw` expression among the arm's descendant nodes throws such an object creation; its reach is stated by `ArmGuardFoundAtAnyDepth` |
| Analyzer.AnalyzeSwitchIntended | ExhaustiveSwitchOnEnums/Analyzer.cs:54-90 | corrected analysis: never fails; reports iff the switch is over an enum, some default section throws the guard, and some field is not covered |
| Analyzer.AnalyzeSwitchExpressionIntended | ExhaustiveSwitchOnEnums/Analyzer.cs:92-128 | corrected analysis of a switch expression, with the discard arms in place of default sections |
| Analyzer.AnalyzeSwitchAgreesWithIntended | ExhaustiveSwitchOnEnums/Analyzer.cs:65-66 | whenever `Single()` succeeds, the analysis as written reports exactly what the corrected one reports |
| Analyzer.AnalyzeSwitchExpressionAgreesWithIntended | ExhaustiveSwitchOnEnums/Analyzer.cs:103-104 | the same for switch expressions |
| Analyzer.SwitchWithoutDefaultFaults | ExhaustiveSwitchOnEnums/Analyzer.cs:65-66 | an enum switch with no default section makes the analysis fail, while the corrected one reports nothing |
| Analyzer.SwitchExpressionWithoutDiscardFaults | ExhaustiveSwitchOnEnums/Analyzer.cs:103-104 | an enum switch expression with no discard arm makes the analysis fail, while the corrected one reports nothing |
| FixProvider.ReportedDiagnosticsAreFixable | ExhaustiveSwitchOnEnums/FixProvider.cs:20-21 | every diagnostic either analysis reports carries an id among the fix's fixable ids |
| FixProvider.MissingSection | ExhaustiveSwitchOnEnums/FixProvider.cs:89-112 | the new section's labels are exactly `case TypeName.Member:`, so it is not a default one and its label's first member access is `TypeName.Member`; its body is `throw new NotImplementedException();` |
| FixProvider.MissingSections | ExhaustiveSwitchOnEnums/FixProvider.cs:89-113 | one new section per missing member, in the same order |
| FixProvider.MissingArm | ExhaustiveSwitchOnEnums/FixProvider.cs:186-203 | the new arm's pattern is exactly the constant `TypeName.Member`, so it is not a discard and names that member; it has no `when` clause and throws `NotImplementedException` |
| FixProvider.MissingArms | ExhaustiveSwitchOnEnums/FixProvider.cs:186-204 | one new arm per missing member, in the same order |
| FixProvider.MakeExhaustive | ExhaustiveSwitchOnEnums/FixProvider.cs:63-134 | declines and returns the switch unchanged without a semantic model or when the switched-on expression is not a plain identifier; otherwise keeps the expression, trivia and position, keeps the default sections exactly and last, keeps the non-default sections in order followed by one new section per missing member, and adds nothing else |
| FixProvider.RebuiltSectionsClassify | ExhaustiveSwitchOnEnums/FixProvider.cs:115-126 | in `non-default ++ added ++ default` the default sections are the old ones, the non-default ones are the old ones then the added ones, defaults come last, and the multiset is the old one plus the added sections |
| FixProvider.MakeExhaustiveExpression | ExhaustiveSwitchOnEnums/FixProvider.cs:160-225 | the same for a switch expression: non-discard arms, then one new arm per missing member, then the discard arms |
| FixProvider.RebuiltArmsClassify | ExhaustiveSwitchOnEnums/FixProvider.cs:206-217 | the classification of the rebuilt arms, as for sections |
| FixProvider.AddedSectionsCover | ExhaustiveSwitchOnEnums/FixProvider.cs:89-126 | old sections plus one resolving section per missing member cover every field |
| FixProvider.AddedSectionCovers | ExhaustiveSwitchOnEnums/FixProvider.cs:89-112 | the section synthesized for a missing member covers that member once it resolves |
| FixProvider.FixLeavesNothingMissing | ExhaustiveSwitchOnEnums/FixProvider.cs:63-134 | when each synthesized `TypeName.Member` resolves to its member, nothing is missing after the fix |
| FixProvider.FixSilencesAnalyzer | ExhaustiveSwitchOnEnums/FixProvider.cs:63-134 | after the fix the analysis, as written and as corrected, reports nothing |
| FixProvider.AddedArmsCover | ExhaustiveSwitchOnEnums/FixProvider.cs:186-217 | old arms plus one resolving arm per missing member cover every field |
| FixProvider.FixExpressionLeavesNothingMissing | ExhaustiveSwitchOnEnums/FixProvider.cs:160-225 | nothing is missing after the switch-expression fix |
| FixProvider.FixSilencesExpressionAnalyzer | ExhaustiveSwitchOnEnums/FixProvider.cs:160-225 | after the switch-expression fix the analysis reports nothing |
| Linq.Where | ExhaustiveSwitchOnEnums/SwitchHelpers.cs:14 | keeps exactly the elements satisfying the predicate, as a subsequence; empty iff no element satisfies it |
| Linq.Select | ExhaustiveSwitchOnEnums/SwitchHelpers.cs:37-40 | same length as the input, each element mapped in place |
| Linq.SelectMany | ExhaustiveSwitchOnEnums/SwitchHelpers.cs:37 | an element is in the result iff it is in the image of some input element |
| Linq.Somes | ExhaustiveSwitchOnEnums/SwitchHelpers.cs:39 | drops the absent values: `x` is in the result iff `Some(x)` is in the input |
| Linq.WherePartition | ExhaustiveSwitchOnEnums/SwitchHelpers.cs:13-23 | filtering by a predicate and by its negation splits a sequence by length and multiset |
| Linq.WhereStronger | ExhaustiveSwitchOnEnums/SwitchHelpers.cs:43-45 | a stronger filter keeps a subsequence of what a weaker one keeps |
| Linq.Regroup | ExhaustiveSwitchOnEnums/FixProvider.cs:121-126 | regrouping `not-p ++ added ++ p` keeps each group and the multiset |
| Linq.RegroupOrdered | ExhaustiveSwitchOnEnums/FixProvider.cs:121-126 | in the regrouped sequence every element after a `p` element is a `p` element |
| Syntax.MemberAccessesIn | ExhaustiveSwitchOnEnums/SwitchExpressionHelpers.cs:37 | keeps exactly the member accesses among the nodes; its first element is the first member-access node |
| Syntax.FirstMemberAccess | ExhaustiveSwitchOnEnums/SwitchHelpers.cs:38 | none iff no descendant node of the label is a member access; otherwise the first member access among the label's descendant nodes, no earlier node being one |
| Syntax.LabelNodes | ExhaustiveSwitchOnEnums/SwitchHelpers.cs:38 | a `default:` label has no nodes; a `case` label's value, a pattern's expressions and a `when` clause are nodes; the nodes are closed under taking child expressions, and every node is one of those or a child of another node, so they are exactly the label's descendant expressions |
| Syntax.ArmNodes | ExhaustiveSwitchOnEnums/SwitchExpressionHelpers.cs:36 | the pattern's expressions, the `when` clause and the result are nodes, the nodes are closed under taking child expressions, and every node is one of those or a child of another node, so they are exactly the arm's descendant expressions |
| Syntax.DescendantStatements | ExhaustiveSwitchOnEnums/Analyzer.cs:66-67 | every given statement is a descendant, and the descendants are closed under taking nested statements (blocks, nested switch sections, other compound statements), and every descendant is a given statement or a child of another descendant, so they are exactly the nested statements |
| Scenarios.StatementTests | ExhaustiveSwitchOnEnums.Tests/Tests.cs:12-154 | cases 1 and 2: each switch is reported at its own (abstract) position, the fix gives a switch of the expected shape (sections and labels, not text or formatting), and that switch is not reported |
| Scenarios.UnguardedSwitchNotReported | ExhaustiveSwitchOnEnums/Analyzer.cs:73-77 | a switch with missing fields whose default section does not throw the guard is not reported |
| Scenarios.NoDefaultFaults | ExhaustiveSwitchOnEnums/Analyzer.cs:65-66 | the enum switch `case Status.Accepted: return;` with no default section makes the analysis fail |
| Scenarios.OrPatternCoversFirstOnly | ExhaustiveSwitchOnEnums/SwitchHelpers.cs:38 | with `case Status.Cooking or Status.Cooked:` only `Cooking` counts as covered, so `Cooked` is missing and the switch is reported |
| Scenarios.OrSwitchFullyHandled | ExhaustiveSwitchOnEnums/SwitchHelpers.cs:36-45 | counting every member access of a label, the same switch misses nothing |
| ExpressionScenarios.ExpressionReported | ExhaustiveSwitchOnEnums.Tests/Tests.cs:156-186 | case 3: the switch expression is reported at its position |
| ExpressionScenarios.ExpressionFix | ExhaustiveSwitchOnEnums.Tests/Tests.cs:187-216 | case 3: the fix gives the expected arms in the expected order (tree shape, not text) |
| ExpressionScenarios.ExpressionFixedSilent | ExhaustiveSwitchOnEnums.Tests/Tests.cs:220-227 | case 3: the fixed switch expression is not reported |

## Left out

- Registration plumbing is not modelled: `Initialize`, `SupportedDiagnostics`, `GetFixAllProvider`, `RegisterCodeFixesAsync` and the two `RegisterCodeFixFor...` methods. They locate the switch node and hand it to the modelled functions. `RegisterCodeFixesAsync` runs both locators on every diagnostic (FixProvider.cs:36-38), and each takes the nearest enclosing switch of its kind around the diagnostic's start (FixProvider.cs:43-48). A diagnostic on a switch expression that stands inside a section of a switch statement therefore also offers a "Make exhaustive" action that rebuilds the enclosing statement. Which node a diagnostic is mapped to is outside the model, and so is the registered action's title and equivalence key, `Make exhaustive` (FixProvider.cs:18).
- Asynchrony, cancellation tokens and documents are not modelled. The fix returns the rebuilt switch instead of a document in which `ReplaceNode` substituted it.
- The title, message and description come from localized resources, so the model leaves them out. `Rule` keeps the id, category, severity and enabled flag.
- `TypeInfo.Type` is assumed to be non-null. The model's `typeOf` is total, so the null-reference path for an expression without a type is not represented.
- A member access is identified by its text `Target.Name`. A member access nested inside another one's target (`a.b.c`) or inside an invocation's target (`Status.Cooking.ToString()`) is not a separate node of the model. In a switch expression the code collects such inner accesses too (SwitchExpressionHelpers.cs:36-37), so an arm mentioning `Status.Cooking.ToString()` covers `Cooking` there but not in the model.
- Statements inside lambdas or local functions within a section are not descendants in the model. Only statements nested in statements are.
- The fix regenerates keyword, brace and parenthesis tokens with default trivia. The model keeps only the switch's own leading and trailing trivia and the identifier's trivia.
- A diagnostic's location is an abstract start position, not a line and column.
- MakeExhaustive: the qualifying name is the enum's simple name `Type.Name`. Whether `TypeName.Member` resolves in the edited file is left to the caller of the idempotence lemmas, as the `SynthesizedLabelsResolve` requirement.

## Findings

| source | as written | input that shows it | evidently intended | confidence | as-written member | corrected member |
|---|---|---|---|---|---|---|
| ExhaustiveSwitchOnEnums/Analyzer.cs:65-66 | `Single()` on the default sections throws when an enum switch has no default section, or two of them (a section whose body holds a nested switch with its own `default:` also counts) | `switch (status) { case Status.Accepted: return; }` with `status` of enum type | skip the switch, or accept any default section that throws the guard | high, not executed | Analyzer.SwitchWithoutDefaultFaults | Analyzer.AnalyzeSwitchIntended |
| ExhaustiveSwitchOnEnums/SwitchHelpers.cs:38 | only the first member access of each label counts, so in `case Status.Cooking or Status.Cooked:` the value `Cooked` stays missing; the fix then adds `case Status.Cooked:`, which the compiler rejects as already handled (CS8120) | `switch (status) { case Status.Accepted: return; case Status.Cooking or Status.Cooked: return; default: throw new ArgumentOutOfRangeException(nameof(status), status, null); }` | count every member access of every label | medium, not executed | Scenarios.OrPatternCoversFirstOnly | SwitchHelpers.GetMissingEnumMembersIntended |
| ExhaustiveSwitchOnEnums/Analyzer.cs:103-104 | `Single()` on the discard arms throws when an enum switch expression has no `_` arm | `status switch { Status.Accepted => "", Status.Cooking => "c", Status.Cooked => "d" }` | skip the switch expression when there is no discard arm | high, not executed | Analyzer.SwitchExpressionWithoutDiscardFaults | Analyzer.AnalyzeSwitchExpressionIntended |
