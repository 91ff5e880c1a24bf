/**
 * Concrete switches over `enum Status { Accepted = 1, Cooking = 2, Cooked = 3 }`,
 * as in the repository's tests, and what the analyzer and the fix make of them.
 */
module Scenarios {
  import opened Wrappers
  import opened Syntax
  import SwitchHelpers
  import SwitchExpressionHelpers
  import Analyzer
  import FixProvider
  import Linq

  const Accepted: Symbol := Symbol(1, Field, "Accepted")
  const Cooking: Symbol := Symbol(2, Field, "Cooking")
  const Cooked: Symbol := Symbol(3, Field, "Cooked")
  const Status: TypeSymbol := TypeSymbol(Enum, "Status", [Accepted, Cooking, Cooked])

  /** `Status.X` resolves to the member `X`; nothing else resolves. */
  function ResolveMember(a: MemberAccess): Option<Symbol>
  {
    if a.target != "Status" then None
    else if a.name == "Accepted" then Some(Accepted)
    else if a.name == "Cooking" then Some(Cooking)
    else if a.name == "Cooked" then Some(Cooked)
    else None
  }

  /** The parameter `status` has type `Status`; `new T(...)` has type `T`. */
  function TypeOf(e: Expr): TypeSymbol
  {
    match e
    case IdentifierName(_, _) => Status
    case ObjectCreation(typeName, _) => TypeSymbol(Class, typeName, [])
    case _ => TypeSymbol(Error, "", [])
  }

  const Model: SemanticModel := SemanticModel(TypeOf, ResolveMember)

  const StatusVariable: Expr := IdentifierName("status", Trivia("", ""))

  function Case(member: string): Label
  {
    CaseLabel(MemberAccessExpr(MemberAccess("Status", member)))
  }

  /** `throw new ArgumentOutOfRangeException(nameof(status), status, null);` */
  const Guard: Statement := ThrowStatement(Some(ObjectCreation("ArgumentOutOfRangeException", [OtherExpression([StatusVariable]), StatusVariable, OtherExpression([])])))

  /** `return;` */
  const Return: Statement := OtherStatement([])

  /** `case Status.Accepted: return;` */
  const ReturnSection: Section := Section([Case("Accepted")], [Return])

  /** `default:` followed by `body`. */
  function DefaultSection(body: seq<Statement>): Section
  {
    Section([DefaultLabel], body)
  }

  /** `switch (status) { case Status.Accepted: return; default: <body> }`, as in the first two tests. */
  function Switch(body: seq<Statement>): SwitchStatement
  {
    SwitchStatement(StatusVariable, [ReturnSection, DefaultSection(body)], Trivia("\n            ", "\n"), 0)
  }

  /** The fixed text of the first two tests: `Cooking` and `Cooked` sections before the default one. */
  function SwitchFixed(body: seq<Statement>): SwitchStatement
  {
    SwitchStatement(StatusVariable, [ReturnSection, TodoSection("Cooking"), TodoSection("Cooked"), DefaultSection(body)], Trivia("\n            ", "\n"), 0)
  }

  /** The first test's default body: the guard itself. */
  const GuardBody: seq<Statement> := [Guard]

  /** The second test's default body: the guard inside a block. */
  const BlockBody: seq<Statement> := [Block([Guard])]

  /** `case Status.X: throw new NotImplementedException();` */
  function TodoSection(member: string): Section
  {
    Section([Case(member)], [ThrowStatement(Some(ObjectCreation("NotImplementedException", [])))])
  }

  lemma StatusFields()
    ensures SwitchHelpers.EnumFields(Status) == [Accepted, Cooking, Cooked]
  {
    Linq.WhereAll(Status.members, SwitchHelpers.IsField);
  }

  lemma ReturnSectionIsNotDefault()
    ensures !SwitchHelpers.IsDefaultSection(ReturnSection)
  {
    assert DescendantStatements([Return]) == [Return];
  }

  /** Whatever its body, the `default:` section is the only default section; the other one is the only non-default one. */
  lemma SwitchSections(body: seq<Statement>)
    ensures SwitchHelpers.GetDefaultSections(Switch(body)) == [DefaultSection(body)]
    ensures SwitchHelpers.GetNonDefaultSections(Switch(body)) == [ReturnSection]
  {
    ReturnSectionIsNotDefault();
    var secs := Switch(body).sections;
    assert secs[1..] == [DefaultSection(body)];
    assert secs[1..][1..] == [];
    assert Linq.Where(secs[1..][1..], SwitchHelpers.IsDefaultSection) == [];
    assert Linq.Where(secs[1..], SwitchHelpers.IsDefaultSection) == [DefaultSection(body)];
    assert Linq.Where(secs[1..], SwitchHelpers.IsNonDefaultSection) == [];
  }

  /** Only the label `Status.Accepted` names a symbol, whatever the default body. */
  lemma SwitchLabels(body: seq<Statement>)
    ensures SwitchHelpers.CaseSwitchLabels(Switch(body), Model) == [Some(Accepted)]
  {
    var secs := Switch(body).sections;
    assert secs[1..][1..] == [];
    assert Linq.SelectMany(secs[1..][1..], SwitchHelpers.SectionLabels) == [];
    assert Linq.SelectMany(secs[1..], SwitchHelpers.SectionLabels) == [DefaultLabel];
    var labels := [Case("Accepted"), DefaultLabel];
    assert Linq.SelectMany(secs, SwitchHelpers.SectionLabels) == labels;
    var firsts := Linq.Select(labels, FirstMemberAccess);
    assert firsts == [Some(MemberAccess("Status", "Accepted")), None];
    assert firsts[1..] == [None];
    assert firsts[1..][1..] == [];
    assert Linq.Somes(firsts[1..]) == [];
    assert Linq.Somes(firsts) == [MemberAccess("Status", "Accepted")];
  }

  /** Filtering the three fields of `Status` by a predicate that drops exactly `Accepted`. */
  lemma WhereDropsAccepted(p: Symbol -> bool)
    requires !p(Accepted) && p(Cooking) && p(Cooked)
    ensures Linq.Where([Accepted, Cooking, Cooked], p) == [Cooking, Cooked]
  {
    var fields := [Accepted, Cooking, Cooked];
    assert fields[1..] == [Cooking, Cooked];
    assert fields[1..][1..] == [Cooked];
    assert fields[1..][1..][1..] == [];
    assert Linq.Where(fields[1..][1..][1..], p) == [];
    assert Linq.Where(fields[1..][1..], p) == [Cooked];
  }

  /** When only `Accepted` is named, `Cooking` and `Cooked` are missing, in declaration order. */
  lemma OnlyAcceptedCovered(covered: seq<Option<Symbol>>)
    requires covered == [Some(Accepted)]
    ensures Linq.Where([Accepted, Cooking, Cooked], (f: Symbol) => Some(f) !in covered) == [Cooking, Cooked]
  {
    WhereDropsAccepted((f: Symbol) => Some(f) !in covered);
  }

  lemma SwitchMissing(body: seq<Statement>)
    ensures SwitchHelpers.GetMissingEnumMembers(Status, Switch(body), Model) == [Cooking, Cooked]
  {
    StatusFields();
    SwitchLabels(body);
    OnlyAcceptedCovered(SwitchHelpers.CaseSwitchLabels(Switch(body), Model));
  }

  /** The guard is found both directly (first test) and inside a block (second test). */
  lemma TestBodiesThrowGuard()
    ensures Analyzer.SectionThrowsOutOfRange(DefaultSection(GuardBody), Model)
    ensures Analyzer.SectionThrowsOutOfRange(DefaultSection(BlockBody), Model)
  {
    assert DescendantStatements(GuardBody) == [Guard];
    assert DescendantStatements([Guard]) == [Guard];
    assert DescendantStatements(BlockBody) == [Block([Guard]), Guard];
  }

  /** A switch missing `Cooking` and `Cooked` whose default section throws the guard is reported, at its own position. */
  lemma SwitchReported(body: seq<Statement>)
    requires Analyzer.SectionThrowsOutOfRange(DefaultSection(body), Model)
    ensures Analyzer.AnalyzeSwitch(Switch(body), Model) == Analyzer.Completed([Analyzer.Diagnostic(Analyzer.Rule, 0)])
  {
    SwitchSections(body);
    SwitchMissing(body);
  }

  /** A switch whose default section does not throw the guard is not reported, although values are missing. */
  lemma UnguardedSwitchNotReported()
    ensures Analyzer.AnalyzeSwitch(Switch([Return]), Model) == Analyzer.Completed([])
  {
    SwitchSections([Return]);
    assert DescendantStatements([Return]) == [Return];
  }

  lemma SwitchAdded()
    ensures FixProvider.MissingSections("Status", [Cooking, Cooked]) == [TodoSection("Cooking"), TodoSection("Cooked")]
  {
    var added := FixProvider.MissingSections("Status", [Cooking, Cooked]);
    assert added[0] == FixProvider.MissingSection("Status", Cooking) == TodoSection("Cooking");
    assert added[1] == FixProvider.MissingSection("Status", Cooked) == TodoSection("Cooked");
  }

  lemma SwitchFixSections(body: seq<Statement>)
    ensures FixProvider.MakeExhaustive(Switch(body), Some(Model)).sections == SwitchHelpers.GetNonDefaultSections(Switch(body)) + FixProvider.MissingSections("Status", [Cooking, Cooked]) + SwitchHelpers.GetDefaultSections(Switch(body))
  {
    SwitchMissing(body);
  }

  /** Splicing two elements between two others. */
  lemma Around<T>(first: T, middle: seq<T>, last: T)
    ensures |middle| == 2 ==> [first] + middle + [last] == [first, middle[0], middle[1], last]
  {
  }

  /** The fix of the first two tests: `Cooking` and `Cooked` sections go between the existing case and the default. */
  lemma SwitchFix(body: seq<Statement>)
    ensures FixProvider.MakeExhaustive(Switch(body), Some(Model)) == SwitchFixed(body)
  {
    SwitchFixSections(body);
    SwitchSections(body);
    SwitchAdded();
    var r := FixProvider.MakeExhaustive(Switch(body), Some(Model));
    assert r.sections == [ReturnSection] + [TodoSection("Cooking"), TodoSection("Cooked")] + [DefaultSection(body)];
    Around(ReturnSection, [TodoSection("Cooking"), TodoSection("Cooked")], DefaultSection(body));
    assert r.sections == SwitchFixed(body).sections;
  }

  lemma SynthesizedResolve()
    ensures FixProvider.SynthesizedLabelsResolve(Status, [Cooking, Cooked], Model)
  {
  }

  /** Once fixed, the switch of the first two tests is no longer reported. */
  lemma SwitchFixedSilent(body: seq<Statement>)
    requires Analyzer.SectionThrowsOutOfRange(DefaultSection(body), Model)
    ensures Analyzer.AnalyzeSwitch(SwitchFixed(body), Model) == Analyzer.Completed([])
  {
    SwitchReported(body);
    SwitchMissing(body);
    SynthesizedResolve();
    FixProvider.FixSilencesAnalyzer(Switch(body), Model);
    SwitchFix(body);
  }

  /** The first two tests: reported, fixed as expected, and silent once fixed. */
  lemma StatementTests()
    ensures Analyzer.AnalyzeSwitch(Switch(GuardBody), Model) == Analyzer.Completed([Analyzer.Diagnostic(Analyzer.Rule, 0)])
    ensures Analyzer.AnalyzeSwitch(Switch(BlockBody), Model) == Analyzer.Completed([Analyzer.Diagnostic(Analyzer.Rule, 0)])
    ensures FixProvider.MakeExhaustive(Switch(GuardBody), Some(Model)) == SwitchFixed(GuardBody)
    ensures FixProvider.MakeExhaustive(Switch(BlockBody), Some(Model)) == SwitchFixed(BlockBody)
    ensures Analyzer.AnalyzeSwitch(SwitchFixed(GuardBody), Model) == Analyzer.Completed([])
    ensures Analyzer.AnalyzeSwitch(SwitchFixed(BlockBody), Model) == Analyzer.Completed([])
  {
    TestBodiesThrowGuard();
    SwitchReported(GuardBody);
    SwitchReported(BlockBody);
    SwitchFix(GuardBody);
    SwitchFix(BlockBody);
    SwitchFixedSilent(GuardBody);
    SwitchFixedSilent(BlockBody);
  }

  /** As written, the analyzer throws on an enum switch with no default section at all. */
  lemma NoDefaultFaults()
    ensures Analyzer.AnalyzeSwitch(SwitchStatement(StatusVariable, [ReturnSection], Trivia("", ""), 0), Model) == Analyzer.Faulted
  {
    ReturnSectionIsNotDefault();
    var sw := SwitchStatement(StatusVariable, [ReturnSection], Trivia("", ""), 0);
    assert sw.sections[1..] == [];
    assert SwitchHelpers.GetDefaultSections(sw) == [];
  }

  /** `case Status.Cooking or Status.Cooked: return;` */
  const OrSection: Section := Section([CasePatternLabel(OtherPattern([MemberAccessExpr(MemberAccess("Status", "Cooking")), MemberAccessExpr(MemberAccess("Status", "Cooked"))]), None)], [Return])

  /** `switch (status) { case Status.Accepted: return; case Status.Cooking or Status.Cooked: return; default: <guard> }` */
  const OrSwitch: SwitchStatement := SwitchStatement(StatusVariable, [ReturnSection, OrSection, DefaultSection(GuardBody)], Trivia("", ""), 0)

  lemma OrSwitchLabels()
    ensures FirstMemberAccess(Case("Accepted")) == Some(MemberAccess("Status", "Accepted"))
    ensures FirstMemberAccess(OrSection.labels[0]) == Some(MemberAccess("Status", "Cooking"))
    ensures FirstMemberAccess(DefaultLabel) == None
  {
    var nodes := LabelNodes(OrSection.labels[0]);
    assert nodes == [MemberAccessExpr(MemberAccess("Status", "Cooking")), MemberAccessExpr(MemberAccess("Status", "Cooked"))];
  }

  lemma OrSwitchCoversCooking()
    ensures SwitchHelpers.CoveredBySections(OrSwitch.sections, Model, Cooking)
  {
    OrSwitchLabels();
    assert OrSection in OrSwitch.sections;
    assert OrSection.labels[0] in OrSection.labels;
  }

  /** The only labels of the or-pattern switch. */
  lemma OrSwitchAllLabels(sec: Section, l: Label)
    requires sec in OrSwitch.sections && l in sec.labels
    ensures l == Case("Accepted") || l == OrSection.labels[0] || l == DefaultLabel
  {
    assert sec == ReturnSection || sec == OrSection || sec == DefaultSection(GuardBody);
  }

  lemma OrSwitchMissesCooked()
    ensures !SwitchHelpers.CoveredBySections(OrSwitch.sections, Model, Cooked)
  {
    OrSwitchLabels();
    forall sec, l | sec in OrSwitch.sections && l in sec.labels && FirstMemberAccess(l).Some?
      ensures Model.symbolOf(FirstMemberAccess(l).value) != Some(Cooked)
    {
      OrSwitchAllLabels(sec, l);
    }
  }

  lemma OrSwitchDefaults()
    ensures SwitchHelpers.GetDefaultSections(OrSwitch) == [DefaultSection(GuardBody)]
  {
    ReturnSectionIsNotDefault();
    assert DescendantStatements([Return]) == [Return];
    assert !SwitchHelpers.IsDefaultSection(OrSection);
    var secs := OrSwitch.sections;
    assert secs[1..][1..][1..] == [];
    assert secs[1..][1..] == [DefaultSection(GuardBody)];
    assert secs[1..] == [OrSection, DefaultSection(GuardBody)];
    assert Linq.Where(secs[1..][1..][1..], SwitchHelpers.IsDefaultSection) == [];
    assert Linq.Where(secs[1..][1..], SwitchHelpers.IsDefaultSection) == [DefaultSection(GuardBody)];
    assert Linq.Where(secs[1..], SwitchHelpers.IsDefaultSection) == [DefaultSection(GuardBody)];
  }

  /**
   * Only the first member access of a label counts: although every value is
   * handled, `Cooked` is still missing and the switch is reported.
   */
  lemma OrPatternCoversFirstOnly()
    ensures Cooked in SwitchHelpers.GetMissingEnumMembers(Status, OrSwitch, Model)
    ensures Cooking !in SwitchHelpers.GetMissingEnumMembers(Status, OrSwitch, Model)
    ensures Analyzer.AnalyzeSwitch(OrSwitch, Model) == Analyzer.Completed([Analyzer.Diagnostic(Analyzer.Rule, 0)])
  {
    OrSwitchCoversCooking();
    OrSwitchMissesCooked();
    StatusFields();
    OrSwitchDefaults();
    TestBodiesThrowGuard();
  }

  /** Counting every member access of a label, the or-pattern switch handles every value of `Status`. */
  lemma OrSwitchHandlesAccepted()
    ensures SwitchHelpers.HandledBySections(OrSwitch.sections, Model, Accepted)
  {
    assert ReturnSection in OrSwitch.sections && Case("Accepted") in ReturnSection.labels;
    assert MemberAccessExpr(MemberAccess("Status", "Accepted")) in LabelNodes(Case("Accepted"));
  }

  /** The nodes of the or-pattern label: its two alternatives. */
  lemma OrLabelNodes()
    ensures LabelNodes(OrSection.labels[0]) == [MemberAccessExpr(MemberAccess("Status", "Cooking")), MemberAccessExpr(MemberAccess("Status", "Cooked"))]
  {
  }

  /** Both alternatives of the or-pattern are member accesses of its label. */
  lemma OrSwitchHandlesBoth()
    ensures SwitchHelpers.HandledBySections(OrSwitch.sections, Model, Cooking)
    ensures SwitchHelpers.HandledBySections(OrSwitch.sections, Model, Cooked)
  {
    OrLabelNodes();
    var l := OrSection.labels[0];
    assert OrSection in OrSwitch.sections && l in OrSection.labels;
    assert LabelNodes(l)[0] == MemberAccessExpr(MemberAccess("Status", "Cooking"));
    assert LabelNodes(l)[1] == MemberAccessExpr(MemberAccess("Status", "Cooked"));
  }

  lemma OrSwitchFullyHandled()
    ensures SwitchHelpers.GetMissingEnumMembersIntended(Status, OrSwitch, Model) == []
  {
    StatusFields();
    OrSwitchHandlesAccepted();
    OrSwitchHandlesBoth();
  }
}
