/**
 * The switch-expression test over `Status`: what the analyzer and the fix make of
 * `status switch { Status.Accepted => "", _ => throw new ArgumentOutOfRangeException(...) }`.
 */
module ExpressionScenarios {
  import opened Wrappers
  import opened Syntax
  import SwitchExpressionHelpers
  import Analyzer
  import FixProvider
  import Linq
  import opened Scenarios

  /** `Status.Accepted => ""` */
  const AcceptedArm: Arm := Arm(ConstantPattern(MemberAccessExpr(MemberAccess("Status", "Accepted"))), None, OtherExpression([]))

  /** `new ArgumentOutOfRangeException(nameof(status), status, null)` */
  const OutOfRange: Expr := ObjectCreation("ArgumentOutOfRangeException", [OtherExpression([StatusVariable]), StatusVariable, OtherExpression([])])

  /** `_ => throw new ArgumentOutOfRangeException(nameof(status), status, null)` */
  const GuardArm: Arm := Arm(DiscardPattern, None, ThrowExpression(OutOfRange))

  /** `Status.X => throw new NotImplementedException()` */
  function TodoArm(member: string): Arm
  {
    Arm(ConstantPattern(MemberAccessExpr(MemberAccess("Status", member))), None, ThrowExpression(ObjectCreation("NotImplementedException", [])))
  }

  const Expression: SwitchExpression := SwitchExpression(StatusVariable, [AcceptedArm, GuardArm], Trivia("", "\n"), 0)

  const ExpressionFixed: SwitchExpression := SwitchExpression(StatusVariable, [AcceptedArm, TodoArm("Cooking"), TodoArm("Cooked"), GuardArm], Trivia("", "\n"), 0)

  lemma ExpressionArms()
    ensures SwitchExpressionHelpers.GetDefaultArms(Expression) == [GuardArm]
    ensures SwitchExpressionHelpers.GetNonDefaultArms(Expression) == [AcceptedArm]
  {
    var arms := Expression.arms;
    assert arms[1..] == [GuardArm];
    assert arms[1..][1..] == [];
    assert Linq.Where(arms[1..][1..], SwitchExpressionHelpers.IsDefaultArm) == [];
    assert Linq.Where(arms[1..], SwitchExpressionHelpers.IsDefaultArm) == [GuardArm];
    assert Linq.Where(arms[1..], SwitchExpressionHelpers.IsNonDefaultArm) == [];
  }

  /** Expressions none of which is a member access hold no member access. */
  lemma {:induction false} NoMemberAccesses(es: seq<Expr>)
    requires forall i :: 0 <= i < |es| ==> !es[i].MemberAccessExpr?
    ensures MemberAccessesIn(es) == []
  {
    if es != [] {
      NoMemberAccesses(es[1..]);
    }
  }

  /** The discard arm throws the guard; it holds no member access. */
  lemma GuardArmNodes()
    ensures ArmNodes(GuardArm) == [ThrowExpression(OutOfRange), OutOfRange, OtherExpression([StatusVariable]), StatusVariable, StatusVariable, OtherExpression([])]
    ensures Analyzer.ArmThrowsOutOfRange(GuardArm, Model)
    ensures MemberAccessesIn(ArmNodes(GuardArm)) == []
  {
    var args := OutOfRange.arguments;
    assert [StatusVariable][1..] == [];
    assert SubexpressionsOfAll([StatusVariable]) == [StatusVariable];
    assert Subexpressions(OtherExpression([StatusVariable])) == [OtherExpression([StatusVariable]), StatusVariable];
    assert args[1..][1..][1..] == [];
    assert SubexpressionsOfAll(args[1..][1..]) == [OtherExpression([])];
    assert SubexpressionsOfAll(args[1..]) == [StatusVariable, OtherExpression([])];
    assert SubexpressionsOfAll(args) == [OtherExpression([StatusVariable]), StatusVariable, StatusVariable, OtherExpression([])];
    assert Subexpressions(OutOfRange) == [OutOfRange] + SubexpressionsOfAll(args);
    assert Subexpressions(ThrowExpression(OutOfRange)) == [ThrowExpression(OutOfRange)] + Subexpressions(OutOfRange);
    assert ArmNodes(GuardArm) == [] + [] + Subexpressions(ThrowExpression(OutOfRange));
    NoMemberAccesses(ArmNodes(GuardArm));
  }

  /** The nodes of the two arms, in order. */
  lemma ExpressionNodes()
    ensures Linq.SelectMany(Expression.arms, ArmNodes) == [MemberAccessExpr(MemberAccess("Status", "Accepted")), OtherExpression([])] + ArmNodes(GuardArm)
  {
    var arms := Expression.arms;
    assert ArmNodes(AcceptedArm) == [MemberAccessExpr(MemberAccess("Status", "Accepted")), OtherExpression([])];
    assert arms[1..][1..] == [];
    assert Linq.SelectMany(arms[1..][1..], ArmNodes) == [];
    assert Linq.SelectMany(arms[1..], ArmNodes) == ArmNodes(GuardArm);
  }

  /** A member access followed by a node without any, ahead of nodes without any. */
  lemma AccessesBefore(a: MemberAccess, rest: seq<Expr>)
    requires MemberAccessesIn(rest) == []
    ensures MemberAccessesIn([MemberAccessExpr(a), OtherExpression([])] + rest) == [a]
  {
    var nodes := [MemberAccessExpr(a), OtherExpression([])] + rest;
    assert nodes[1..] == [OtherExpression([])] + rest;
    assert nodes[1..][1..] == rest;
  }

  /** Only `Status.Accepted` is a member access in the arms. */
  lemma ExpressionAccesses()
    ensures MemberAccessesIn(Linq.SelectMany(Expression.arms, ArmNodes)) == [MemberAccess("Status", "Accepted")]
  {
    GuardArmNodes();
    ExpressionNodes();
    AccessesBefore(MemberAccess("Status", "Accepted"), ArmNodes(GuardArm));
  }

  lemma ExpressionLabels()
    ensures SwitchExpressionHelpers.CaseSwitchLabels(Expression, Model) == [Some(Accepted)]
  {
    ExpressionAccesses();
  }

  lemma ExpressionMissing()
    ensures SwitchExpressionHelpers.GetMissingEnumMembers(Status, Expression, Model) == [Cooking, Cooked]
  {
    StatusFields();
    ExpressionLabels();
    OnlyAcceptedCovered(SwitchExpressionHelpers.CaseSwitchLabels(Expression, Model));
  }

  /** The third test: the switch expression is reported, at its own position. */
  lemma ExpressionReported()
    ensures Analyzer.AnalyzeSwitchExpression(Expression, Model) == Analyzer.Completed([Analyzer.Diagnostic(Analyzer.Rule, 0)])
  {
    ExpressionArms();
    GuardArmNodes();
    ExpressionMissing();
  }

  lemma ExpressionAdded()
    ensures FixProvider.MissingArms("Status", [Cooking, Cooked]) == [TodoArm("Cooking"), TodoArm("Cooked")]
  {
    var added := FixProvider.MissingArms("Status", [Cooking, Cooked]);
    assert added[0] == FixProvider.MissingArm("Status", Cooking) == TodoArm("Cooking");
    assert added[1] == FixProvider.MissingArm("Status", Cooked) == TodoArm("Cooked");
  }

  lemma ExpressionFixArms()
    ensures FixProvider.MakeExhaustiveExpression(Expression, Some(Model)).arms == SwitchExpressionHelpers.GetNonDefaultArms(Expression) + FixProvider.MissingArms("Status", [Cooking, Cooked]) + SwitchExpressionHelpers.GetDefaultArms(Expression)
  {
    ExpressionMissing();
  }

  /** The third test's fix: `Cooking` and `Cooked` arms go between the existing arm and the discard. */
  lemma ExpressionFix()
    ensures FixProvider.MakeExhaustiveExpression(Expression, Some(Model)) == ExpressionFixed
  {
    ExpressionFixArms();
    ExpressionArms();
    ExpressionAdded();
    var r := FixProvider.MakeExhaustiveExpression(Expression, Some(Model));
    assert r.arms == [AcceptedArm] + [TodoArm("Cooking"), TodoArm("Cooked")] + [GuardArm];
    Around(AcceptedArm, [TodoArm("Cooking"), TodoArm("Cooked")], GuardArm);
    assert r.arms == ExpressionFixed.arms;
  }

  /** Once fixed, the third test's switch expression is no longer reported. */
  lemma ExpressionFixedSilent()
    ensures Analyzer.AnalyzeSwitchExpression(ExpressionFixed, Model) == Analyzer.Completed([])
  {
    ExpressionReported();
    ExpressionMissing();
    SynthesizedResolve();
    FixProvider.FixSilencesExpressionAnalyzer(Expression, Model);
    ExpressionFix();
  }
}
