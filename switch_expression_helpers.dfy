/**
 * Queries over a switch expression: which arms are the discard (`_`) arms, and
 * which fields of the switched-on enum no member access in any arm names.
 */
module SwitchExpressionHelpers {
  import opened Wrappers
  import opened Linq
  import opened Syntax
  import SwitchHelpers

  predicate IsDefaultArm(arm: Arm)
  {
    arm.pattern.DiscardPattern?
  }

  predicate IsNonDefaultArm(arm: Arm)
  {
    !IsDefaultArm(arm)
  }

  function GetDefaultArms(se: SwitchExpression): (r: seq<Arm>)
    ensures forall arm :: arm in r <==> arm in se.arms && arm.pattern == DiscardPattern
    ensures IsSubsequence(r, se.arms)
  {
    Where(se.arms, IsDefaultArm)
  }

  function GetNonDefaultArms(se: SwitchExpression): (r: seq<Arm>)
    ensures forall arm :: arm in r <==> arm in se.arms && arm.pattern != DiscardPattern
    ensures IsSubsequence(r, se.arms)
  {
    Where(se.arms, IsNonDefaultArm)
  }

  /** Every arm is either a discard arm or not, never both and never neither. */
  lemma ArmsPartition(se: SwitchExpression)
    ensures |GetDefaultArms(se)| + |GetNonDefaultArms(se)| == |se.arms|
    ensures multiset(GetDefaultArms(se)) + multiset(GetNonDefaultArms(se)) == multiset(se.arms)
  {
    WherePartition(se.arms, IsDefaultArm, IsNonDefaultArm);
  }

  /** The symbols of every member access anywhere in any arm (pattern, `when` clause and result alike). */
  function CaseSwitchLabels(se: SwitchExpression, sm: SemanticModel): (r: seq<Option<Symbol>>)
    ensures forall o :: o in r <==> exists arm, a :: arm in se.arms && MemberAccessExpr(a) in ArmNodes(arm) && o == sm.symbolOf(a)
  {
    var r := Select(MemberAccessesIn(SelectMany(se.arms, ArmNodes)), sm.symbolOf);
    assert forall o :: o in r ==> exists arm, a :: arm in se.arms && MemberAccessExpr(a) in ArmNodes(arm) && o == sm.symbolOf(a) by {
      forall o | o in r
        ensures exists arm, a :: arm in se.arms && MemberAccessExpr(a) in ArmNodes(arm) && o == sm.symbolOf(a)
      {
        ResolvedSymbolIsNamed(se.arms, sm, o);
      }
    }
    assert forall arm, a :: arm in se.arms && MemberAccessExpr(a) in ArmNodes(arm) ==> sm.symbolOf(a) in r by {
      forall arm, a | arm in se.arms && MemberAccessExpr(a) in ArmNodes(arm)
        ensures sm.symbolOf(a) in r
      {
        NamedSymbolIsResolved(se.arms, sm, arm, a);
      }
    }
    r
  }

  /** Each resolved symbol comes from a member access somewhere in some arm. */
  lemma ResolvedSymbolIsNamed(arms: seq<Arm>, sm: SemanticModel, o: Option<Symbol>)
    requires o in Select(MemberAccessesIn(SelectMany(arms, ArmNodes)), sm.symbolOf)
    ensures exists arm, a :: arm in arms && MemberAccessExpr(a) in ArmNodes(arm) && o == sm.symbolOf(a)
  {
    var nodes := SelectMany(arms, ArmNodes);
    var accesses := MemberAccessesIn(nodes);
    var i :| 0 <= i < |accesses| && sm.symbolOf(accesses[i]) == o;
    var a := accesses[i];
    assert a in accesses;
    assert MemberAccessExpr(a) in nodes;
    var arm :| arm in arms && MemberAccessExpr(a) in ArmNodes(arm);
  }

  /** Every member access anywhere in every arm is resolved. */
  lemma NamedSymbolIsResolved(arms: seq<Arm>, sm: SemanticModel, arm: Arm, a: MemberAccess)
    requires arm in arms && MemberAccessExpr(a) in ArmNodes(arm)
    ensures sm.symbolOf(a) in Select(MemberAccessesIn(SelectMany(arms, ArmNodes)), sm.symbolOf)
  {
    var nodes := SelectMany(arms, ArmNodes);
    var accesses := MemberAccessesIn(nodes);
    assert MemberAccessExpr(a) in nodes;
    assert a in accesses;
    var i :| 0 <= i < |accesses| && accesses[i] == a;
    assert Select(accesses, sm.symbolOf)[i] == sm.symbolOf(a);
  }

  /** `f` is covered when a member access somewhere in some arm resolves to `f`. */
  ghost predicate CoveredByArms(arms: seq<Arm>, sm: SemanticModel, f: Symbol)
  {
    exists arm, a :: arm in arms && MemberAccessExpr(a) in ArmNodes(arm) && sm.symbolOf(a) == Some(f)
  }

  lemma CaseSwitchLabelsCover(se: SwitchExpression, sm: SemanticModel)
    ensures forall f :: Some(f) in CaseSwitchLabels(se, sm) <==> CoveredByArms(se.arms, sm, f)
  {
  }

  /**
   * The enum's fields that no member access in the arms resolves to, in
   * declaration order.
   */
  function GetMissingEnumMembers(t: TypeSymbol, se: SwitchExpression, sm: SemanticModel): (r: seq<Symbol>)
    ensures IsSubsequence(r, SwitchHelpers.EnumFields(t))
    ensures forall f :: f in r <==> f in t.members && f.kind == Field && !CoveredByArms(se.arms, sm, f)
    ensures r == [] <==> forall f :: f in SwitchHelpers.EnumFields(t) ==> CoveredByArms(se.arms, sm, f)
  {
    var covered := CaseSwitchLabels(se, sm);
    CaseSwitchLabelsCover(se, sm);
    Where(SwitchHelpers.EnumFields(t), (f: Symbol) => Some(f) !in covered)
  }

  /** Adding arms can only shrink the missing members, keeping the survivors in order. */
  lemma MoreArmsFewerMissing(t: TypeSymbol, se: SwitchExpression, se': SwitchExpression, sm: SemanticModel)
    requires forall arm :: arm in se.arms ==> arm in se'.arms
    ensures IsSubsequence(GetMissingEnumMembers(t, se', sm), GetMissingEnumMembers(t, se, sm))
  {
    var covered := CaseSwitchLabels(se, sm);
    var covered' := CaseSwitchLabels(se', sm);
    CaseSwitchLabelsCover(se, sm);
    CaseSwitchLabelsCover(se', sm);
    WhereStronger(SwitchHelpers.EnumFields(t), (f: Symbol) => Some(f) !in covered', (f: Symbol) => Some(f) !in covered);
  }
}
