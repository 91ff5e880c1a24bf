/**
 * The analyzer's decision for one switch statement or switch expression: report
 * the rule's warning when the switch is over an enum, its default branch throws
 * `ArgumentOutOfRangeException`, and some field of the enum is not handled.
 *
 * Each analysis callback either completes, having reported zero or more
 * diagnostics, or fails with an exception (`Faulted`): `Single()` throws when
 * there is not exactly one default section or discard arm.
 */
module Analyzer {
  import opened Wrappers
  import opened Syntax
  import SwitchHelpers
  import SwitchExpressionHelpers

  const DiagnosticId: string := "ExhaustiveSwitchOnEnums"
  const Category: string := "Usage"
  const ArgumentOutOfRangeExceptionName: string := "ArgumentOutOfRangeException"

  datatype DiagnosticSeverity = Hidden | Info | Warning | Error

  datatype DiagnosticDescriptor = DiagnosticDescriptor(id: string, category: string, defaultSeverity: DiagnosticSeverity, isEnabledByDefault: bool)

  /** The analyzer's single rule: always a warning, always enabled. */
  const Rule: DiagnosticDescriptor := DiagnosticDescriptor(DiagnosticId, Category, Warning, true)

  /** A reported diagnostic: the rule and where the offending switch starts. */
  datatype Diagnostic = Diagnostic(rule: DiagnosticDescriptor, position: nat)

  datatype Analysis = Completed(diagnostics: seq<Diagnostic>) | Faulted

  /** `e` is `new T(...)` where `T` resolves to a type named `ArgumentOutOfRangeException`. */
  predicate CreatesOutOfRange(e: Expr, sm: SemanticModel)
  {
    e.ObjectCreation? && sm.typeOf(e).name == ArgumentOutOfRangeExceptionName
  }

  /** Some throw statement anywhere among the section's descendants throws a new `ArgumentOutOfRangeException`. */
  predicate SectionThrowsOutOfRange(sec: Section, sm: SemanticModel)
  {
    exists s :: s in DescendantStatements(sec.statements) && s.ThrowStatement? && s.operand.Some? && CreatesOutOfRange(s.operand.value, sm)
  }

  /** Some throw expression anywhere in the arm throws a new `ArgumentOutOfRangeException`. */
  predicate ArmThrowsOutOfRange(arm: Arm, sm: SemanticModel)
  {
    exists e :: e in ArmNodes(arm) && e.ThrowExpression? && CreatesOutOfRange(e.operand, sm)
  }

  /** The analysis of a switch statement, as the analyzer is written. */
  function AnalyzeSwitch(sw: SwitchStatement, sm: SemanticModel): (r: Analysis)
    ensures r.Faulted? <==> sm.typeOf(sw.expression).kind == Enum && |SwitchHelpers.GetDefaultSections(sw)| != 1
    ensures r.Completed? ==> r.diagnostics == [] || r.diagnostics == [Diagnostic(Rule, sw.position)]
    ensures r == Completed([Diagnostic(Rule, sw.position)]) <==>
      var t := sm.typeOf(sw.expression);
      var defaults := SwitchHelpers.GetDefaultSections(sw);
      && t.kind == Enum
      && |defaults| == 1
      && SectionThrowsOutOfRange(defaults[0], sm)
      && exists f :: f in SwitchHelpers.EnumFields(t) && !SwitchHelpers.CoveredBySections(sw.sections, sm, f)
  {
    var t := sm.typeOf(sw.expression);
    if t.kind != Enum then Completed([])
    else
      var defaults := SwitchHelpers.GetDefaultSections(sw);
      if |defaults| != 1 then Faulted
      else if !SectionThrowsOutOfRange(defaults[0], sm) then Completed([])
      else if SwitchHelpers.GetMissingEnumMembers(t, sw, sm) == [] then Completed([])
      else Completed([Diagnostic(Rule, sw.position)])
  }

  /** The analysis of a switch expression, as the analyzer is written. */
  function AnalyzeSwitchExpression(se: SwitchExpression, sm: SemanticModel): (r: Analysis)
    ensures r.Faulted? <==> sm.typeOf(se.governingExpression).kind == Enum && |SwitchExpressionHelpers.GetDefaultArms(se)| != 1
    ensures r.Completed? ==> r.diagnostics == [] || r.diagnostics == [Diagnostic(Rule, se.position)]
    ensures r == Completed([Diagnostic(Rule, se.position)]) <==>
      var t := sm.typeOf(se.governingExpression);
      var defaults := SwitchExpressionHelpers.GetDefaultArms(se);
      && t.kind == Enum
      && |defaults| == 1
      && ArmThrowsOutOfRange(defaults[0], sm)
      && exists f :: f in SwitchHelpers.EnumFields(t) && !SwitchExpressionHelpers.CoveredByArms(se.arms, sm, f)
  {
    var t := sm.typeOf(se.governingExpression);
    if t.kind != Enum then Completed([])
    else
      var defaults := SwitchExpressionHelpers.GetDefaultArms(se);
      if |defaults| != 1 then Faulted
      else if !ArmThrowsOutOfRange(defaults[0], sm) then Completed([])
      else if SwitchExpressionHelpers.GetMissingEnumMembers(t, se, sm) == [] then Completed([])
      else Completed([Diagnostic(Rule, se.position)])
  }

  /**
   * The guard search is permissive: a qualifying throw found in some statements
   * still qualifies once those statements are wrapped in a block or in any other
   * statement (an `if`, a loop) and surrounded by other statements.
   */
  lemma GuardFoundAtAnyDepth(labels: seq<Label>, before: seq<Statement>, inner: seq<Statement>, after: seq<Statement>, wrapper: Statement, sm: SemanticModel)
    requires wrapper == Block(inner) || wrapper == OtherStatement(inner)
    requires SectionThrowsOutOfRange(Section(labels, inner), sm)
    ensures SectionThrowsOutOfRange(Section(labels, before + [wrapper] + after), sm)
  {
    var s :| s in DescendantStatements(inner) && s.ThrowStatement? && s.operand.Some? && CreatesOutOfRange(s.operand.value, sm);
    DescendantsOfConcat(before, [wrapper]);
    DescendantsOfConcat(before + [wrapper], after);
    assert DescendantStatements([wrapper]) == [wrapper] + DescendantStatements(inner);
    assert s in DescendantStatements(before + [wrapper] + after);
  }

  /**
   * Likewise for an arm: a throw expression nested anywhere inside a larger
   * result expression still qualifies.
   */
  lemma ArmGuardFoundAtAnyDepth(pattern: Pattern, whenClause: Option<Expr>, before: seq<Expr>, x: Expr, after: seq<Expr>, sm: SemanticModel)
    requires CreatesOutOfRange(x, sm)
    ensures ArmThrowsOutOfRange(Arm(pattern, whenClause, OtherExpression(before + [ThrowExpression(x)] + after)), sm)
  {
    var e := OtherExpression(before + [ThrowExpression(x)] + after);
    var nodes := ArmNodes(Arm(pattern, whenClause, e));
    assert e in nodes;
    assert ChildExpression(ThrowExpression(x), e);
    assert ThrowExpression(x) in nodes;
  }

  /**
   * The analysis of a switch statement as evidently intended: a switch without a
   * default section is skipped rather than making `Single()` throw, and any
   * default section that throws the guard exception qualifies.
   */
  function AnalyzeSwitchIntended(sw: SwitchStatement, sm: SemanticModel): (r: seq<Diagnostic>)
    ensures r == [] || r == [Diagnostic(Rule, sw.position)]
    ensures r != [] <==>
      var t := sm.typeOf(sw.expression);
      && t.kind == Enum
      && (exists sec :: sec in sw.sections && SwitchHelpers.IsDefaultSection(sec) && SectionThrowsOutOfRange(sec, sm))
      && exists f :: f in SwitchHelpers.EnumFields(t) && !SwitchHelpers.CoveredBySections(sw.sections, sm, f)
  {
    var t := sm.typeOf(sw.expression);
    if t.kind != Enum then []
    else if !exists sec :: sec in SwitchHelpers.GetDefaultSections(sw) && SectionThrowsOutOfRange(sec, sm) then []
    else if SwitchHelpers.GetMissingEnumMembers(t, sw, sm) == [] then []
    else [Diagnostic(Rule, sw.position)]
  }

  /** The analysis of a switch expression as evidently intended (see `AnalyzeSwitchIntended`). */
  function AnalyzeSwitchExpressionIntended(se: SwitchExpression, sm: SemanticModel): (r: seq<Diagnostic>)
    ensures r == [] || r == [Diagnostic(Rule, se.position)]
    ensures r != [] <==>
      var t := sm.typeOf(se.governingExpression);
      && t.kind == Enum
      && (exists arm :: arm in se.arms && arm.pattern == DiscardPattern && ArmThrowsOutOfRange(arm, sm))
      && exists f :: f in SwitchHelpers.EnumFields(t) && !SwitchExpressionHelpers.CoveredByArms(se.arms, sm, f)
  {
    var t := sm.typeOf(se.governingExpression);
    if t.kind != Enum then []
    else if !exists arm :: arm in SwitchExpressionHelpers.GetDefaultArms(se) && ArmThrowsOutOfRange(arm, sm) then []
    else if SwitchExpressionHelpers.GetMissingEnumMembers(t, se, sm) == [] then []
    else [Diagnostic(Rule, se.position)]
  }

  /** Where `Single()` succeeds, the analyzer as written and as intended agree. */
  lemma AnalyzeSwitchAgreesWithIntended(sw: SwitchStatement, sm: SemanticModel)
    requires AnalyzeSwitch(sw, sm).Completed?
    ensures AnalyzeSwitch(sw, sm) == Completed(AnalyzeSwitchIntended(sw, sm))
  {
    if sm.typeOf(sw.expression).kind == Enum {
      var defaults := SwitchHelpers.GetDefaultSections(sw);
      var d := defaults[0];
      assert defaults == [d];
      assert (exists sec :: sec in defaults && SectionThrowsOutOfRange(sec, sm)) == SectionThrowsOutOfRange(d, sm);
    }
  }

  lemma AnalyzeSwitchExpressionAgreesWithIntended(se: SwitchExpression, sm: SemanticModel)
    requires AnalyzeSwitchExpression(se, sm).Completed?
    ensures AnalyzeSwitchExpression(se, sm) == Completed(AnalyzeSwitchExpressionIntended(se, sm))
  {
    if sm.typeOf(se.governingExpression).kind == Enum {
      var defaults := SwitchExpressionHelpers.GetDefaultArms(se);
      var d := defaults[0];
      assert defaults == [d];
      assert (exists arm :: arm in defaults && ArmThrowsOutOfRange(arm, sm)) == ArmThrowsOutOfRange(d, sm);
    }
  }

  /** As written, an enum switch statement without a default section makes the analyzer throw. */
  lemma SwitchWithoutDefaultFaults(sw: SwitchStatement, sm: SemanticModel)
    requires sm.typeOf(sw.expression).kind == Enum
    requires forall sec :: sec in sw.sections ==> !SwitchHelpers.IsDefaultSection(sec)
    ensures AnalyzeSwitch(sw, sm) == Faulted
    ensures AnalyzeSwitchIntended(sw, sm) == []
  {
  }

  /** As written, an enum switch expression without a discard arm makes the analyzer throw. */
  lemma SwitchExpressionWithoutDiscardFaults(se: SwitchExpression, sm: SemanticModel)
    requires sm.typeOf(se.governingExpression).kind == Enum
    requires forall arm :: arm in se.arms ==> arm.pattern != DiscardPattern
    ensures AnalyzeSwitchExpression(se, sm) == Faulted
    ensures AnalyzeSwitchExpressionIntended(se, sm) == []
  {
  }
}
