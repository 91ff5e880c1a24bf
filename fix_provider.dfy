/**
 * The "Make exhaustive" code fix: rebuild the switch with one new branch per
 * missing enum member, each throwing `NotImplementedException`, placed after the
 * existing non-default branches and before the default ones. The input is never
 * changed; the fix returns a new switch, or the original one when it declines.
 */
module FixProvider {
  import opened Wrappers
  import opened Linq
  import opened Syntax
  import SwitchHelpers
  import SwitchExpressionHelpers
  import Analyzer

  /** The diagnostic ids this fix offers to repair. */
  const FixableDiagnosticIds: seq<string> := [Analyzer.DiagnosticId]
  const NotImplementedExceptionName: string := "NotImplementedException"

  /** `new NotImplementedException()`. */
  const Placeholder: Expr := ObjectCreation(NotImplementedExceptionName, [])

  /** `case TypeName.Member: throw new NotImplementedException();` */
  function MissingSection(typeName: string, member: Symbol): (sec: Section)
    ensures !SwitchHelpers.IsDefaultSection(sec)
    ensures sec.labels == [CaseLabel(MemberAccessExpr(MemberAccess(typeName, member.name)))]
    ensures |sec.labels| == 1 && FirstMemberAccess(sec.labels[0]) == Some(MemberAccess(typeName, member.name))
    ensures sec.statements == [ThrowStatement(Some(Placeholder))]
  {
    var sec := Section([CaseLabel(MemberAccessExpr(MemberAccess(typeName, member.name)))], [ThrowStatement(Some(Placeholder))]);
    assert DescendantStatements(sec.statements) == [ThrowStatement(Some(Placeholder))];
    sec
  }

  function MissingSections(typeName: string, missing: seq<Symbol>): (r: seq<Section>)
    ensures |r| == |missing|
    ensures forall i :: 0 <= i < |missing| ==> r[i] == MissingSection(typeName, missing[i])
  {
    Select(missing, (m: Symbol) => MissingSection(typeName, m))
  }

  /** `TypeName.Member => throw new NotImplementedException()`, with no `when` clause. */
  function MissingArm(typeName: string, member: Symbol): (arm: Arm)
    ensures arm.pattern == ConstantPattern(MemberAccessExpr(MemberAccess(typeName, member.name)))
    ensures arm.pattern != DiscardPattern && arm.whenClause == None
    ensures MemberAccessExpr(MemberAccess(typeName, member.name)) in ArmNodes(arm)
    ensures arm.expression == ThrowExpression(Placeholder)
  {
    Arm(ConstantPattern(MemberAccessExpr(MemberAccess(typeName, member.name))), None, ThrowExpression(Placeholder))
  }

  function MissingArms(typeName: string, missing: seq<Symbol>): (r: seq<Arm>)
    ensures |r| == |missing|
    ensures forall i :: 0 <= i < |missing| ==> r[i] == MissingArm(typeName, missing[i])
  {
    Select(missing, (m: Symbol) => MissingArm(typeName, m))
  }

  /**
   * The code fix for a switch statement. It declines (returns `sw` itself) when
   * there is no semantic model or the switched-on expression is not a plain
   * identifier. Otherwise the result keeps the expression, trivia and position;
   * its default sections are exactly the original ones, in order, and come last;
   * its other sections are the original non-default ones, in order, followed by
   * one new section per missing member in declaration order.
   */
  function MakeExhaustive(sw: SwitchStatement, semanticModel: Option<SemanticModel>): (r: SwitchStatement)
    ensures semanticModel.None? || !sw.expression.IdentifierName? ==> r == sw
    ensures semanticModel.Some? && sw.expression.IdentifierName? ==>
      var t := semanticModel.value.typeOf(sw.expression);
      var missing := SwitchHelpers.GetMissingEnumMembers(t, sw, semanticModel.value);
      && r.expression == sw.expression && r.trivia == sw.trivia && r.position == sw.position
      && SwitchHelpers.GetDefaultSections(r) == SwitchHelpers.GetDefaultSections(sw)
      && SwitchHelpers.GetNonDefaultSections(r) == SwitchHelpers.GetNonDefaultSections(sw) + MissingSections(t.name, missing)
      && (forall i, j :: 0 <= i < j < |r.sections| && SwitchHelpers.IsDefaultSection(r.sections[i]) ==> SwitchHelpers.IsDefaultSection(r.sections[j]))
      && multiset(r.sections) == multiset(sw.sections) + multiset(MissingSections(t.name, missing))
  {
    match semanticModel
    case None => sw
    case Some(sm) =>
      if !sw.expression.IdentifierName? then sw
      else
        var nonDefault := SwitchHelpers.GetNonDefaultSections(sw);
        var defaults := SwitchHelpers.GetDefaultSections(sw);
        var t := sm.typeOf(sw.expression);
        var added := MissingSections(t.name, SwitchHelpers.GetMissingEnumMembers(t, sw, sm));
        var switchVariable := IdentifierName(sw.expression.identifier, sw.expression.trivia);
        var r := SwitchStatement(switchVariable, nonDefault + added + defaults, sw.trivia, sw.position);
        RebuiltSectionsClassify(sw, added);
        r
  }

  /** How the sections `nonDefault ++ added ++ default` classify, when none of `added` is a default section. */
  lemma RebuiltSectionsClassify(sw: SwitchStatement, added: seq<Section>)
    requires forall sec :: sec in added ==> !SwitchHelpers.IsDefaultSection(sec)
    ensures
      var nonDefault := SwitchHelpers.GetNonDefaultSections(sw);
      var defaults := SwitchHelpers.GetDefaultSections(sw);
      var r := sw.(sections := nonDefault + added + defaults);
      && SwitchHelpers.GetDefaultSections(r) == defaults
      && SwitchHelpers.GetNonDefaultSections(r) == nonDefault + added
      && (forall i, j :: 0 <= i < j < |r.sections| && SwitchHelpers.IsDefaultSection(r.sections[i]) ==> SwitchHelpers.IsDefaultSection(r.sections[j]))
      && multiset(r.sections) == multiset(sw.sections) + multiset(added)
  {
    SwitchHelpers.SectionsPartition(sw);
    Regroup(sw.sections, added, SwitchHelpers.IsDefaultSection, SwitchHelpers.IsNonDefaultSection);
    RegroupOrdered(sw.sections, added, SwitchHelpers.IsDefaultSection, SwitchHelpers.IsNonDefaultSection);
  }

  /**
   * The code fix for a switch expression, with the same shape as `MakeExhaustive`:
   * non-discard arms, then one new arm per missing member, then the discard arms.
   */
  function MakeExhaustiveExpression(se: SwitchExpression, semanticModel: Option<SemanticModel>): (r: SwitchExpression)
    ensures semanticModel.None? || !se.governingExpression.IdentifierName? ==> r == se
    ensures semanticModel.Some? && se.governingExpression.IdentifierName? ==>
      var t := semanticModel.value.typeOf(se.governingExpression);
      var missing := SwitchExpressionHelpers.GetMissingEnumMembers(t, se, semanticModel.value);
      && r.governingExpression == se.governingExpression && r.trivia == se.trivia && r.position == se.position
      && SwitchExpressionHelpers.GetDefaultArms(r) == SwitchExpressionHelpers.GetDefaultArms(se)
      && SwitchExpressionHelpers.GetNonDefaultArms(r) == SwitchExpressionHelpers.GetNonDefaultArms(se) + MissingArms(t.name, missing)
      && (forall i, j :: 0 <= i < j < |r.arms| && r.arms[i].pattern == DiscardPattern ==> r.arms[j].pattern == DiscardPattern)
      && multiset(r.arms) == multiset(se.arms) + multiset(MissingArms(t.name, missing))
  {
    match semanticModel
    case None => se
    case Some(sm) =>
      if !se.governingExpression.IdentifierName? then se
      else
        var nonDefault := SwitchExpressionHelpers.GetNonDefaultArms(se);
        var defaults := SwitchExpressionHelpers.GetDefaultArms(se);
        var t := sm.typeOf(se.governingExpression);
        var added := MissingArms(t.name, SwitchExpressionHelpers.GetMissingEnumMembers(t, se, sm));
        var switchVariable := IdentifierName(se.governingExpression.identifier, se.governingExpression.trivia);
        var r := SwitchExpression(switchVariable, nonDefault + added + defaults, se.trivia, se.position);
        RebuiltArmsClassify(se, added);
        r
  }

  /** How the arms `nonDefault ++ added ++ default` classify, when none of `added` is a discard arm. */
  lemma RebuiltArmsClassify(se: SwitchExpression, added: seq<Arm>)
    requires forall arm :: arm in added ==> arm.pattern != DiscardPattern
    ensures
      var nonDefault := SwitchExpressionHelpers.GetNonDefaultArms(se);
      var defaults := SwitchExpressionHelpers.GetDefaultArms(se);
      var r := se.(arms := nonDefault + added + defaults);
      && SwitchExpressionHelpers.GetDefaultArms(r) == defaults
      && SwitchExpressionHelpers.GetNonDefaultArms(r) == nonDefault + added
      && (forall i, j :: 0 <= i < j < |r.arms| && r.arms[i].pattern == DiscardPattern ==> r.arms[j].pattern == DiscardPattern)
      && multiset(r.arms) == multiset(se.arms) + multiset(added)
  {
    Regroup(se.arms, added, SwitchExpressionHelpers.IsDefaultArm, SwitchExpressionHelpers.IsNonDefaultArm);
    RegroupOrdered(se.arms, added, SwitchExpressionHelpers.IsDefaultArm, SwitchExpressionHelpers.IsNonDefaultArm);
  }

  /**
   * What re-analysing the fixed code relies on: each synthesized label
   * `TypeName.Member` resolves to the very member it was built from.
   */
  ghost predicate SynthesizedLabelsResolve(t: TypeSymbol, missing: seq<Symbol>, sm: SemanticModel)
  {
    forall m :: m in missing ==> sm.symbolOf(MemberAccess(t.name, m.name)) == Some(m)
  }

  /** Sections that keep every old section and add a labelled one per missing member cover every field. */
  lemma AddedSectionsCover(t: TypeSymbol, sections: seq<Section>, all: seq<Section>, missing: seq<Symbol>, sm: SemanticModel)
    requires multiset(all) == multiset(sections) + multiset(MissingSections(t.name, missing))
    requires SynthesizedLabelsResolve(t, missing, sm)
    requires forall f :: f in SwitchHelpers.EnumFields(t) && !SwitchHelpers.CoveredBySections(sections, sm, f) ==> f in missing
    ensures forall f :: f in SwitchHelpers.EnumFields(t) ==> SwitchHelpers.CoveredBySections(all, sm, f)
  {
    forall f | f in SwitchHelpers.EnumFields(t)
      ensures SwitchHelpers.CoveredBySections(all, sm, f)
    {
      if SwitchHelpers.CoveredBySections(sections, sm, f) {
        var sec, l :| sec in sections && l in sec.labels && FirstMemberAccess(l).Some? && sm.symbolOf(FirstMemberAccess(l).value) == Some(f);
        assert sec in multiset(all);
      } else {
        AddedSectionCovers(t, all, missing, f, sm);
      }
    }
  }

  /** The section added for a missing member covers that member. */
  lemma AddedSectionCovers(t: TypeSymbol, all: seq<Section>, missing: seq<Symbol>, f: Symbol, sm: SemanticModel)
    requires multiset(MissingSections(t.name, missing)) <= multiset(all)
    requires SynthesizedLabelsResolve(t, missing, sm)
    requires f in missing
    ensures SwitchHelpers.CoveredBySections(all, sm, f)
  {
    var added := MissingSections(t.name, missing);
    var k :| 0 <= k < |missing| && missing[k] == f;
    var sec := added[k];
    assert sec in multiset(added);
    assert sec in all;
    var l := sec.labels[0];
    assert FirstMemberAccess(l) == Some(MemberAccess(t.name, f.name));
    assert l in sec.labels;
  }

  /** After the fix, every field of the enum is covered: nothing is missing any more. */
  lemma FixLeavesNothingMissing(sw: SwitchStatement, sm: SemanticModel)
    requires sw.expression.IdentifierName?
    requires var t := sm.typeOf(sw.expression);
      SynthesizedLabelsResolve(t, SwitchHelpers.GetMissingEnumMembers(t, sw, sm), sm)
    ensures var t := sm.typeOf(sw.expression);
      SwitchHelpers.GetMissingEnumMembers(t, MakeExhaustive(sw, Some(sm)), sm) == []
  {
    var t := sm.typeOf(sw.expression);
    var missing := SwitchHelpers.GetMissingEnumMembers(t, sw, sm);
    var r := MakeExhaustive(sw, Some(sm));
    AddedSectionsCover(t, sw.sections, r.sections, missing, sm);
  }

  /** After the fix the analyzer, as written and as intended, reports nothing for the switch statement. */
  lemma FixSilencesAnalyzer(sw: SwitchStatement, sm: SemanticModel)
    requires sw.expression.IdentifierName?
    requires var t := sm.typeOf(sw.expression);
      SynthesizedLabelsResolve(t, SwitchHelpers.GetMissingEnumMembers(t, sw, sm), sm)
    requires Analyzer.AnalyzeSwitch(sw, sm).Completed?
    ensures Analyzer.AnalyzeSwitch(MakeExhaustive(sw, Some(sm)), sm) == Analyzer.Completed([])
    ensures Analyzer.AnalyzeSwitchIntended(MakeExhaustive(sw, Some(sm)), sm) == []
  {
    FixLeavesNothingMissing(sw, sm);
  }

  /** Arms that keep every old arm and add one per missing member name every field. */
  lemma AddedArmsCover(t: TypeSymbol, arms: seq<Arm>, all: seq<Arm>, missing: seq<Symbol>, sm: SemanticModel)
    requires multiset(all) == multiset(arms) + multiset(MissingArms(t.name, missing))
    requires SynthesizedLabelsResolve(t, missing, sm)
    requires forall f :: f in SwitchHelpers.EnumFields(t) && !SwitchExpressionHelpers.CoveredByArms(arms, sm, f) ==> f in missing
    ensures forall f :: f in SwitchHelpers.EnumFields(t) ==> SwitchExpressionHelpers.CoveredByArms(all, sm, f)
  {
    forall f | f in SwitchHelpers.EnumFields(t)
      ensures SwitchExpressionHelpers.CoveredByArms(all, sm, f)
    {
      if SwitchExpressionHelpers.CoveredByArms(arms, sm, f) {
        var arm, a :| arm in arms && MemberAccessExpr(a) in ArmNodes(arm) && sm.symbolOf(a) == Some(f);
        assert arm in multiset(all);
      } else {
        AddedArmCovers(t, all, missing, f, sm);
      }
    }
  }

  /** The arm added for a missing member names that member. */
  lemma AddedArmCovers(t: TypeSymbol, all: seq<Arm>, missing: seq<Symbol>, f: Symbol, sm: SemanticModel)
    requires multiset(MissingArms(t.name, missing)) <= multiset(all)
    requires SynthesizedLabelsResolve(t, missing, sm)
    requires f in missing
    ensures SwitchExpressionHelpers.CoveredByArms(all, sm, f)
  {
    var added := MissingArms(t.name, missing);
    var k :| 0 <= k < |missing| && missing[k] == f;
    var arm := added[k];
    assert arm in multiset(added);
    assert arm in all;
    assert MemberAccessExpr(MemberAccess(t.name, f.name)) in ArmNodes(arm);
  }

  /** After the fix, every field of the enum is named in some arm: nothing is missing any more. */
  lemma FixExpressionLeavesNothingMissing(se: SwitchExpression, sm: SemanticModel)
    requires se.governingExpression.IdentifierName?
    requires var t := sm.typeOf(se.governingExpression);
      SynthesizedLabelsResolve(t, SwitchExpressionHelpers.GetMissingEnumMembers(t, se, sm), sm)
    ensures var t := sm.typeOf(se.governingExpression);
      SwitchExpressionHelpers.GetMissingEnumMembers(t, MakeExhaustiveExpression(se, Some(sm)), sm) == []
  {
    var t := sm.typeOf(se.governingExpression);
    var missing := SwitchExpressionHelpers.GetMissingEnumMembers(t, se, sm);
    var r := MakeExhaustiveExpression(se, Some(sm));
    AddedArmsCover(t, se.arms, r.arms, missing, sm);
  }

  /** After the fix the analyzer, as written and as intended, reports nothing for the switch expression. */
  lemma FixSilencesExpressionAnalyzer(se: SwitchExpression, sm: SemanticModel)
    requires se.governingExpression.IdentifierName?
    requires var t := sm.typeOf(se.governingExpression);
      SynthesizedLabelsResolve(t, SwitchExpressionHelpers.GetMissingEnumMembers(t, se, sm), sm)
    requires Analyzer.AnalyzeSwitchExpression(se, sm).Completed?
    ensures Analyzer.AnalyzeSwitchExpression(MakeExhaustiveExpression(se, Some(sm)), sm) == Analyzer.Completed([])
    ensures Analyzer.AnalyzeSwitchExpressionIntended(MakeExhaustiveExpression(se, Some(sm)), sm) == []
  {
    FixExpressionLeavesNothingMissing(se, sm);
  }

  /** Every diagnostic the analyzer reports, for a switch statement or a switch expression, is one this fix repairs. */
  lemma ReportedDiagnosticsAreFixable(sw: SwitchStatement, se: SwitchExpression, sm: SemanticModel)
    ensures Analyzer.AnalyzeSwitch(sw, sm).Completed? ==>
      forall d :: d in Analyzer.AnalyzeSwitch(sw, sm).diagnostics ==> d.rule.id in FixableDiagnosticIds
    ensures Analyzer.AnalyzeSwitchExpression(se, sm).Completed? ==>
      forall d :: d in Analyzer.AnalyzeSwitchExpression(se, sm).diagnostics ==> d.rule.id in FixableDiagnosticIds
  {
  }
}
