/**
 * Queries over a switch statement: which sections are the default ones, and
 * which fields of the switched-on enum no `case` label names.
 */
module SwitchHelpers {
  import opened Wrappers
  import opened Linq
  import opened Syntax

  /**
   * A section is a default section when a `default:` label is among its
   * descendants: one of its own labels, or a label of a switch nested in its body.
   */
  predicate IsDefaultSection(sec: Section)
  {
    DefaultLabel in sec.labels
    || exists s, inner :: s in DescendantStatements(sec.statements) && s.NestedSwitch? && inner in s.sections && DefaultLabel in inner.labels
  }

  predicate IsNonDefaultSection(sec: Section)
  {
    !IsDefaultSection(sec)
  }

  function GetDefaultSections(sw: SwitchStatement): (r: seq<Section>)
    ensures forall sec :: sec in r <==> sec in sw.sections && IsDefaultSection(sec)
    ensures IsSubsequence(r, sw.sections)
  {
    Where(sw.sections, IsDefaultSection)
  }

  function GetNonDefaultSections(sw: SwitchStatement): (r: seq<Section>)
    ensures forall sec :: sec in r <==> sec in sw.sections && !IsDefaultSection(sec)
    ensures IsSubsequence(r, sw.sections)
  {
    Where(sw.sections, IsNonDefaultSection)
  }

  /** Every section is either a default or a non-default one, never both and never neither. */
  lemma SectionsPartition(sw: SwitchStatement)
    ensures |GetDefaultSections(sw)| + |GetNonDefaultSections(sw)| == |sw.sections|
    ensures multiset(GetDefaultSections(sw)) + multiset(GetNonDefaultSections(sw)) == multiset(sw.sections)
  {
    WherePartition(sw.sections, IsDefaultSection, IsNonDefaultSection);
  }

  /**
   * A `default:` label belonging to a switch nested in a block of the section's
   * body makes the whole section a default section.
   */
  lemma NestedDefaultMakesDefault(labels: seq<Label>, before: seq<Statement>, inner: seq<Section>, after: seq<Statement>, k: nat)
    requires k < |inner| && DefaultLabel in inner[k].labels
    ensures IsDefaultSection(Section(labels, before + [Block([NestedSwitch(inner)])] + after))
  {
    var stmts := before + [Block([NestedSwitch(inner)])] + after;
    var all := DescendantStatements(stmts);
    assert Block([NestedSwitch(inner)]) in stmts;
    assert ChildStatement(NestedSwitch(inner), Block([NestedSwitch(inner)]));
    assert NestedSwitch(inner) in all;
    assert inner[k] in inner;
  }

  predicate IsField(m: Symbol)
  {
    m.kind == Field
  }

  /** The members of the switched-on type that are fields, in declaration order. */
  function EnumFields(t: TypeSymbol): (r: seq<Symbol>)
    ensures forall m :: m in r <==> m in t.members && m.kind == Field
    ensures IsSubsequence(r, t.members)
  {
    Where(t.members, IsField)
  }

  function SectionLabels(sec: Section): seq<Label>
  {
    sec.labels
  }

  /**
   * The symbols the labels of all sections name: for each label, its first
   * member access, resolved; labels with no member access contribute nothing.
   */
  function CaseSwitchLabels(sw: SwitchStatement, sm: SemanticModel): (r: seq<Option<Symbol>>)
    ensures forall o :: o in r <==> exists sec, l :: sec in sw.sections && l in sec.labels && FirstMemberAccess(l).Some? && o == sm.symbolOf(FirstMemberAccess(l).value)
  {
    var r := Select(Somes(Select(SelectMany(sw.sections, SectionLabels), FirstMemberAccess)), sm.symbolOf);
    assert forall o :: o in r ==> exists sec, l :: sec in sw.sections && l in sec.labels && FirstMemberAccess(l).Some? && o == sm.symbolOf(FirstMemberAccess(l).value) by {
      forall o | o in r
        ensures exists sec, l :: sec in sw.sections && l in sec.labels && FirstMemberAccess(l).Some? && o == sm.symbolOf(FirstMemberAccess(l).value)
      {
        ResolvedSymbolIsNamed(sw.sections, sm, o);
      }
    }
    assert forall sec, l :: sec in sw.sections && l in sec.labels && FirstMemberAccess(l).Some? ==> sm.symbolOf(FirstMemberAccess(l).value) in r by {
      forall sec, l | sec in sw.sections && l in sec.labels && FirstMemberAccess(l).Some?
        ensures sm.symbolOf(FirstMemberAccess(l).value) in r
      {
        NamedSymbolIsResolved(sw.sections, sm, sec, l);
      }
    }
    r
  }

  /** Each resolved symbol comes from the first member access of some label of some section. */
  lemma ResolvedSymbolIsNamed(sections: seq<Section>, sm: SemanticModel, o: Option<Symbol>)
    requires o in Select(Somes(Select(SelectMany(sections, SectionLabels), FirstMemberAccess)), sm.symbolOf)
    ensures exists sec, l :: sec in sections && l in sec.labels && FirstMemberAccess(l).Some? && o == sm.symbolOf(FirstMemberAccess(l).value)
  {
    var labels := SelectMany(sections, SectionLabels);
    var firsts := Select(labels, FirstMemberAccess);
    var accesses := Somes(firsts);
    var i :| 0 <= i < |accesses| && sm.symbolOf(accesses[i]) == o;
    assert accesses[i] in accesses;
    assert Some(accesses[i]) in firsts;
    var j :| 0 <= j < |labels| && FirstMemberAccess(labels[j]) == Some(accesses[i]);
    var l := labels[j];
    assert l in labels;
    var sec :| sec in sections && l in SectionLabels(sec);
  }

  /** The first member access of every label of every section is resolved. */
  lemma NamedSymbolIsResolved(sections: seq<Section>, sm: SemanticModel, sec: Section, l: Label)
    requires sec in sections && l in sec.labels && FirstMemberAccess(l).Some?
    ensures sm.symbolOf(FirstMemberAccess(l).value) in Select(Somes(Select(SelectMany(sections, SectionLabels), FirstMemberAccess)), sm.symbolOf)
  {
    var labels := SelectMany(sections, SectionLabels);
    var firsts := Select(labels, FirstMemberAccess);
    var accesses := Somes(firsts);
    assert l in SectionLabels(sec);
    assert l in labels;
    var j :| 0 <= j < |labels| && labels[j] == l;
    assert firsts[j] == FirstMemberAccess(l);
    assert FirstMemberAccess(l).value in accesses;
    var i :| 0 <= i < |accesses| && accesses[i] == FirstMemberAccess(l).value;
    assert Select(accesses, sm.symbolOf)[i] == sm.symbolOf(FirstMemberAccess(l).value);
  }

  /** `f` is covered when some label of some section has a first member access that resolves to `f`. */
  ghost predicate CoveredBySections(sections: seq<Section>, sm: SemanticModel, f: Symbol)
  {
    exists sec, l :: sec in sections && l in sec.labels && FirstMemberAccess(l).Some? && sm.symbolOf(FirstMemberAccess(l).value) == Some(f)
  }

  lemma CaseSwitchLabelsCover(sw: SwitchStatement, sm: SemanticModel)
    ensures forall f :: Some(f) in CaseSwitchLabels(sw, sm) <==> CoveredBySections(sw.sections, sm, f)
  {
  }

  /**
   * The enum's fields that no label covers, in declaration order (a field is
   * kept iff no label's first member access resolves to that very symbol).
   */
  function GetMissingEnumMembers(t: TypeSymbol, sw: SwitchStatement, sm: SemanticModel): (r: seq<Symbol>)
    ensures IsSubsequence(r, EnumFields(t))
    ensures forall f :: f in r <==> f in t.members && f.kind == Field && !CoveredBySections(sw.sections, sm, f)
    ensures r == [] <==> forall f :: f in EnumFields(t) ==> CoveredBySections(sw.sections, sm, f)
  {
    var covered := CaseSwitchLabels(sw, sm);
    CaseSwitchLabelsCover(sw, sm);
    Where(EnumFields(t), (f: Symbol) => Some(f) !in covered)
  }

  /**
   * Adding a section none of whose labels names a field of the enum by its first
   * member access (a `default:` label, a label with no member access, or one that
   * resolves to a symbol outside the enum) leaves the missing members unchanged.
   */
  lemma {:induction false} NonCoveringSectionKeepsMissing(t: TypeSymbol, sw: SwitchStatement, sm: SemanticModel, sec: Section, i: nat)
    requires i <= |sw.sections|
    requires forall l, f :: l in sec.labels && FirstMemberAccess(l).Some? && f in EnumFields(t) ==> sm.symbolOf(FirstMemberAccess(l).value) != Some(f)
    ensures GetMissingEnumMembers(t, sw.(sections := sw.sections[..i] + [sec] + sw.sections[i..]), sm) == GetMissingEnumMembers(t, sw, sm)
  {
    var sw' := sw.(sections := sw.sections[..i] + [sec] + sw.sections[i..]);
    assert sw.sections == sw.sections[..i] + sw.sections[i..];
    var covered := CaseSwitchLabels(sw, sm);
    var covered' := CaseSwitchLabels(sw', sm);
    CaseSwitchLabelsCover(sw, sm);
    CaseSwitchLabelsCover(sw', sm);
    WhereCongruent(EnumFields(t), (f: Symbol) => Some(f) !in covered', (f: Symbol) => Some(f) !in covered);
  }

  /** A switch with more sections has a subsequence of the missing members of one with fewer. */
  lemma MoreSectionsFewerMissing(t: TypeSymbol, sw: SwitchStatement, sw': SwitchStatement, sm: SemanticModel)
    requires forall sec :: sec in sw.sections ==> sec in sw'.sections
    ensures IsSubsequence(GetMissingEnumMembers(t, sw', sm), GetMissingEnumMembers(t, sw, sm))
  {
    var covered := CaseSwitchLabels(sw, sm);
    var covered' := CaseSwitchLabels(sw', sm);
    CaseSwitchLabelsCover(sw, sm);
    CaseSwitchLabelsCover(sw', sm);
    WhereStronger(EnumFields(t), (f: Symbol) => Some(f) !in covered', (f: Symbol) => Some(f) !in covered);
  }

  /** The symbols of every member access in every label, not only the first one of each label. */
  function AllCaseSwitchLabels(sw: SwitchStatement, sm: SemanticModel): (r: seq<Option<Symbol>>)
    ensures forall o :: o in r <==> exists sec, l, a :: sec in sw.sections && l in sec.labels && MemberAccessExpr(a) in LabelNodes(l) && o == sm.symbolOf(a)
  {
    var r := Select(MemberAccessesIn(SelectMany(SelectMany(sw.sections, SectionLabels), LabelNodes)), sm.symbolOf);
    assert forall o :: o in r ==> exists sec, l, a :: sec in sw.sections && l in sec.labels && MemberAccessExpr(a) in LabelNodes(l) && o == sm.symbolOf(a) by {
      forall o | o in r
        ensures exists sec, l, a :: sec in sw.sections && l in sec.labels && MemberAccessExpr(a) in LabelNodes(l) && o == sm.symbolOf(a)
      {
        ResolvedAccessIsNamed(sw.sections, sm, o);
      }
    }
    assert forall sec, l, a :: sec in sw.sections && l in sec.labels && MemberAccessExpr(a) in LabelNodes(l) ==> sm.symbolOf(a) in r by {
      forall sec, l, a | sec in sw.sections && l in sec.labels && MemberAccessExpr(a) in LabelNodes(l)
        ensures sm.symbolOf(a) in r
      {
        NamedAccessIsResolved(sw.sections, sm, sec, l, a);
      }
    }
    r
  }

  /** Each resolved symbol comes from some member access in some label. */
  lemma ResolvedAccessIsNamed(sections: seq<Section>, sm: SemanticModel, o: Option<Symbol>)
    requires o in Select(MemberAccessesIn(SelectMany(SelectMany(sections, SectionLabels), LabelNodes)), sm.symbolOf)
    ensures exists sec, l, a :: sec in sections && l in sec.labels && MemberAccessExpr(a) in LabelNodes(l) && o == sm.symbolOf(a)
  {
    var labels := SelectMany(sections, SectionLabels);
    var nodes := SelectMany(labels, LabelNodes);
    var accesses := MemberAccessesIn(nodes);
    var i :| 0 <= i < |accesses| && sm.symbolOf(accesses[i]) == o;
    var a := accesses[i];
    assert a in accesses;
    assert MemberAccessExpr(a) in nodes;
    var l :| l in labels && MemberAccessExpr(a) in LabelNodes(l);
    var sec :| sec in sections && l in SectionLabels(sec);
  }

  /** Every member access in every label is resolved. */
  lemma NamedAccessIsResolved(sections: seq<Section>, sm: SemanticModel, sec: Section, l: Label, a: MemberAccess)
    requires sec in sections && l in sec.labels && MemberAccessExpr(a) in LabelNodes(l)
    ensures sm.symbolOf(a) in Select(MemberAccessesIn(SelectMany(SelectMany(sections, SectionLabels), LabelNodes)), sm.symbolOf)
  {
    var labels := SelectMany(sections, SectionLabels);
    var nodes := SelectMany(labels, LabelNodes);
    var accesses := MemberAccessesIn(nodes);
    assert l in SectionLabels(sec);
    assert l in labels;
    assert MemberAccessExpr(a) in nodes;
    assert a in accesses;
    var i :| 0 <= i < |accesses| && accesses[i] == a;
    assert Select(accesses, sm.symbolOf)[i] == sm.symbolOf(a);
  }

  /** `f` is handled when any member access in any label resolves to `f`. */
  ghost predicate HandledBySections(sections: seq<Section>, sm: SemanticModel, f: Symbol)
  {
    exists sec, l, a :: sec in sections && l in sec.labels && MemberAccessExpr(a) in LabelNodes(l) && sm.symbolOf(a) == Some(f)
  }

  /**
   * The enum's fields that no member access in any label resolves to, in
   * declaration order: a pattern `A or B` handles both `A` and `B`.
   */
  function GetMissingEnumMembersIntended(t: TypeSymbol, sw: SwitchStatement, sm: SemanticModel): (r: seq<Symbol>)
    ensures IsSubsequence(r, EnumFields(t))
    ensures forall f :: f in r <==> f in t.members && f.kind == Field && !HandledBySections(sw.sections, sm, f)
    ensures r == [] <==> forall f :: f in EnumFields(t) ==> HandledBySections(sw.sections, sm, f)
  {
    var handled := AllCaseSwitchLabels(sw, sm);
    Where(EnumFields(t), (f: Symbol) => Some(f) !in handled)
  }

  /** A field the first member access of a label covers is handled. */
  lemma CoveredIsHandled(sections: seq<Section>, sm: SemanticModel, f: Symbol)
    requires CoveredBySections(sections, sm, f)
    ensures HandledBySections(sections, sm, f)
  {
    var sec, l :| sec in sections && l in sec.labels && FirstMemberAccess(l).Some? && sm.symbolOf(FirstMemberAccess(l).value) == Some(f);
    var a := FirstMemberAccess(l).value;
    var i :| 0 <= i < |LabelNodes(l)| && LabelNodes(l)[i] == MemberAccessExpr(a);
    assert MemberAccessExpr(a) in LabelNodes(l);
  }

  /** The corrected missing members are the as-written ones with the fields handled by later accesses taken out. */
  lemma IntendedMissesFewer(t: TypeSymbol, sw: SwitchStatement, sm: SemanticModel)
    ensures IsSubsequence(GetMissingEnumMembersIntended(t, sw, sm), GetMissingEnumMembers(t, sw, sm))
  {
    var covered := CaseSwitchLabels(sw, sm);
    var handled := AllCaseSwitchLabels(sw, sm);
    CaseSwitchLabelsCover(sw, sm);
    forall f | Some(f) !in handled
      ensures Some(f) !in covered
    {
      if Some(f) in covered {
        CoveredIsHandled(sw.sections, sm, f);
      }
    }
    WhereStronger(EnumFields(t), (f: Symbol) => Some(f) !in handled, (f: Symbol) => Some(f) !in covered);
  }
}
