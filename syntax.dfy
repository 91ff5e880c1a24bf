/**
 * The part of a C# syntax tree and of its semantic model that the analyzer and
 * the code fix look at, abstracted from Roslyn.
 *
 * Only the node shapes the queries distinguish are kept: identifier names,
 * member accesses (`Status.Accepted`), object creations, throw expressions and
 * statements, blocks, nested switch statements, the three kinds of switch label,
 * discard and constant patterns, and switch expression arms. Every other node is
 * kept only through the nodes nested in it, since the queries only ever search
 * among descendants.
 */
module Syntax {
  import opened Wrappers

  /** Leading and trailing incidental text (whitespace, comments) attached to a node. */
  datatype Trivia = Trivia(leading: string, trailing: string)

  datatype SymbolKind = Field | Property | Method | Local | Parameter | NamedType | Namespace

  /**
   * A declared entity as the semantic model resolves it. `id` stands for the
   * compiler's own identity of the symbol: two enum members with the same name
   * in different enums are different symbols.
   */
  datatype Symbol = Symbol(id: nat, kind: SymbolKind, name: string)

  datatype TypeKind = Enum | Class | Struct | Interface | Delegate | Error

  /** The static type of an expression: its kind, its simple name and its members in declaration order. */
  datatype TypeSymbol = TypeSymbol(kind: TypeKind, name: string, members: seq<Symbol>)

  /** A member-access expression `target.name`, identified by its text. */
  datatype MemberAccess = MemberAccess(target: string, name: string)

  datatype Expr =
    | IdentifierName(identifier: string, trivia: Trivia)
    | MemberAccessExpr(access: MemberAccess)
    | ObjectCreation(typeName: string, arguments: seq<Expr>)
    | ThrowExpression(operand: Expr)
      /** Literals, invocations, operators, ...: only their sub-expressions matter. */
    | OtherExpression(children: seq<Expr>)

  datatype Pattern =
    | DiscardPattern
    | ConstantPattern(value: Expr)
      /** Relational, `or`, `not`, property and other patterns, by the expressions written inside them. */
    | OtherPattern(expressions: seq<Expr>)

  datatype Label =
    | CaseLabel(value: Expr)
    | CasePatternLabel(pattern: Pattern, whenClause: Option<Expr>)
    | DefaultLabel

  datatype Statement =
    | ThrowStatement(operand: Option<Expr>)
    | Block(statements: seq<Statement>)
    | NestedSwitch(sections: seq<Section>)
      /** `return`, `if`, loops, expression statements, ...: by the statements nested in them. */
    | OtherStatement(nested: seq<Statement>)

  datatype Section = Section(labels: seq<Label>, statements: seq<Statement>)

  /** A switch statement; `position` is where its text starts in the document. */
  datatype SwitchStatement = SwitchStatement(expression: Expr, sections: seq<Section>, trivia: Trivia, position: nat)

  datatype Arm = Arm(pattern: Pattern, whenClause: Option<Expr>, expression: Expr)

  datatype SwitchExpression = SwitchExpression(governingExpression: Expr, arms: seq<Arm>, trivia: Trivia, position: nat)

  /**
   * The two questions the core asks of Roslyn's semantic model: the type of an
   * expression (`GetTypeInfo(e).Type`) and the symbol a member access denotes
   * (`GetSymbolInfo(e).Symbol`, absent when it does not resolve).
   */
  datatype SemanticModel = SemanticModel(typeOf: Expr -> TypeSymbol, symbolOf: MemberAccess -> Option<Symbol>)

  /** `c` is one of the expressions written directly inside `e`. */
  ghost predicate ChildExpression(c: Expr, e: Expr)
  {
    match e
    case IdentifierName(_, _) => false
    case MemberAccessExpr(_) => false
    case ObjectCreation(_, arguments) => c in arguments
    case ThrowExpression(operand) => c == operand
    case OtherExpression(children) => c in children
  }

  /** With every expression, `r` also holds the expressions written directly inside it, hence all nested ones. */
  ghost predicate ClosedUnderChildren(r: seq<Expr>)
  {
    forall e, c :: e in r && ChildExpression(c, e) ==> c in r
  }

  /**
   * Every expression of `r` is one of the `roots` or written directly inside another
   * expression of `r`: together with `ClosedUnderChildren`, `r` holds the roots, their
   * nested expressions, and nothing else.
   */
  ghost predicate GeneratedBy(r: seq<Expr>, roots: seq<Expr>)
  {
    forall c :: c in r ==> c in roots || exists p :: p in r && ChildExpression(c, p)
  }

  lemma GeneratedByConcat(a: seq<Expr>, ra: seq<Expr>, b: seq<Expr>, rb: seq<Expr>)
    requires GeneratedBy(a, ra) && GeneratedBy(b, rb)
    ensures GeneratedBy(a + b, ra + rb)
  {
    forall c | c in a + b
      ensures c in ra + rb || exists p :: p in a + b && ChildExpression(c, p)
    {
      if c in a {
        if c !in ra {
          var p :| p in a && ChildExpression(c, p);
          assert p in a + b;
        }
      } else {
        if c !in rb {
          var p :| p in b && ChildExpression(c, p);
          assert p in a + b;
        }
      }
    }
  }

  function OptionRoots(e: Option<Expr>): seq<Expr>
  {
    match e
    case None => []
    case Some(x) => [x]
  }

  /** The expressions written directly in a pattern. */
  function PatternRoots(p: Pattern): seq<Expr>
  {
    match p
    case DiscardPattern => []
    case ConstantPattern(value) => [value]
    case OtherPattern(expressions) => expressions
  }

  /** The expressions written directly in a label. */
  function LabelRoots(l: Label): seq<Expr>
  {
    match l
    case CaseLabel(value) => [value]
    case CasePatternLabel(pattern, whenClause) => PatternRoots(pattern) + OptionRoots(whenClause)
    case DefaultLabel => []
  }

  /** The expressions written directly in an arm. */
  function ArmRoots(a: Arm): seq<Expr>
  {
    PatternRoots(a.pattern) + OptionRoots(a.whenClause) + [a.expression]
  }

  /** `e` followed by every expression nested in it, in document order. */
  function Subexpressions(e: Expr): (r: seq<Expr>)
    ensures |r| > 0 && r[0] == e
    ensures ClosedUnderChildren(r)
    ensures GeneratedBy(r, [e])
  {
    var rest := match e
      case IdentifierName(_, _) => []
      case MemberAccessExpr(_) => []
      case ObjectCreation(_, arguments) => SubexpressionsOfAll(arguments)
      case ThrowExpression(operand) => Subexpressions(operand)
      case OtherExpression(children) => SubexpressionsOfAll(children);
    assert forall c :: c in rest ==> ChildExpression(c, e) || exists p :: p in rest && ChildExpression(c, p);
    [e] + rest
  }

  function SubexpressionsOfAll(es: seq<Expr>): (r: seq<Expr>)
    ensures forall e :: e in es ==> e in r
    ensures ClosedUnderChildren(r)
    ensures GeneratedBy(r, es)
  {
    if es == [] then []
    else
      assert forall e :: e in es ==> e == es[0] || e in es[1..] by {
        assert es == [es[0]] + es[1..];
      }
      GeneratedByConcat(Subexpressions(es[0]), [es[0]], SubexpressionsOfAll(es[1..]), es[1..]);
      assert [es[0]] + es[1..] == es;
      Subexpressions(es[0]) + SubexpressionsOfAll(es[1..])
  }

  function OptionalSubexpressions(e: Option<Expr>): (r: seq<Expr>)
    ensures e.Some? ==> e.value in r
    ensures ClosedUnderChildren(r)
    ensures GeneratedBy(r, OptionRoots(e))
  {
    match e
    case None => []
    case Some(x) => Subexpressions(x)
  }

  /** The expressions written inside a pattern, in document order. */
  function PatternNodes(p: Pattern): (r: seq<Expr>)
    ensures p.DiscardPattern? ==> r == []
    ensures p.ConstantPattern? ==> p.value in r
    ensures p.OtherPattern? ==> forall e :: e in p.expressions ==> e in r
    ensures ClosedUnderChildren(r)
    ensures GeneratedBy(r, PatternRoots(p))
  {
    match p
    case DiscardPattern => []
    case ConstantPattern(value) => Subexpressions(value)
    case OtherPattern(expressions) => SubexpressionsOfAll(expressions)
  }

  /** The expressions among a switch label's descendants, in document order. */
  function LabelNodes(l: Label): (r: seq<Expr>)
    ensures l.DefaultLabel? ==> r == []
    ensures l.CaseLabel? ==> l.value in r
    ensures l.CasePatternLabel? ==> forall e :: e in PatternNodes(l.pattern) ==> e in r
    ensures l.CasePatternLabel? && l.whenClause.Some? ==> l.whenClause.value in r
    ensures ClosedUnderChildren(r)
    ensures GeneratedBy(r, LabelRoots(l))
  {
    match l
    case CaseLabel(value) => Subexpressions(value)
    case CasePatternLabel(pattern, whenClause) =>
      GeneratedByConcat(PatternNodes(pattern), PatternRoots(pattern), OptionalSubexpressions(whenClause), OptionRoots(whenClause));
      PatternNodes(pattern) + OptionalSubexpressions(whenClause)
    case DefaultLabel => []
  }

  /** The expressions among a switch expression arm's descendants: pattern, `when` clause, result. */
  function ArmNodes(a: Arm): (r: seq<Expr>)
    ensures forall e :: e in PatternNodes(a.pattern) ==> e in r
    ensures a.whenClause.Some? ==> a.whenClause.value in r
    ensures a.expression in r
    ensures ClosedUnderChildren(r)
    ensures GeneratedBy(r, ArmRoots(a))
  {
    var front := PatternNodes(a.pattern) + OptionalSubexpressions(a.whenClause);
    GeneratedByConcat(PatternNodes(a.pattern), PatternRoots(a.pattern), OptionalSubexpressions(a.whenClause), OptionRoots(a.whenClause));
    GeneratedByConcat(front, PatternRoots(a.pattern) + OptionRoots(a.whenClause), Subexpressions(a.expression), [a.expression]);
    front + Subexpressions(a.expression)
  }

  /** The member accesses among `es`, in order (`OfType<MemberAccessExpressionSyntax>()`). */
  function MemberAccessesIn(es: seq<Expr>): (r: seq<MemberAccess>)
    ensures forall a :: a in r <==> MemberAccessExpr(a) in es
    ensures r != [] ==> exists i :: 0 <= i < |es| && es[i] == MemberAccessExpr(r[0]) && forall j :: 0 <= j < i ==> !es[j].MemberAccessExpr?
  {
    if es == [] then []
    else
      assert forall e :: e in es <==> e == es[0] || e in es[1..] by {
        assert es == [es[0]] + es[1..];
      }
      match es[0]
      case MemberAccessExpr(a) => [a] + MemberAccessesIn(es[1..])
      case _ =>
        var rest := MemberAccessesIn(es[1..]);
        assert rest != [] ==> exists i :: 0 < i < |es| && es[i] == MemberAccessExpr(rest[0]) && forall j :: 0 <= j < i ==> !es[j].MemberAccessExpr? by {
          if rest != [] {
            var k :| 0 <= k < |es[1..]| && es[1..][k] == MemberAccessExpr(rest[0]) && forall j :: 0 <= j < k ==> !es[1..][j].MemberAccessExpr?;
            assert forall j :: 0 <= j < k + 1 ==> !es[j].MemberAccessExpr? by {
              forall j | 0 <= j < k + 1 ensures !es[j].MemberAccessExpr? {
                if j > 0 {
                  assert es[j] == es[1..][j - 1];
                }
              }
            }
          }
        }
        rest
  }

  /**
   * The first member access among a label's descendants, if any (`FirstOrDefault()`):
   * none exactly when no descendant is a member access, otherwise the one no other
   * member access precedes.
   */
  function FirstMemberAccess(l: Label): (r: Option<MemberAccess>)
    ensures r.None? <==> forall e :: e in LabelNodes(l) ==> !e.MemberAccessExpr?
    ensures r.Some? ==> exists i :: 0 <= i < |LabelNodes(l)| && LabelNodes(l)[i] == MemberAccessExpr(r.value) && forall j :: 0 <= j < i ==> !LabelNodes(l)[j].MemberAccessExpr?
  {
    var nodes := LabelNodes(l);
    var accesses := MemberAccessesIn(nodes);
    NoAccessesAmong(nodes);
    if accesses == [] then None
    else Some(accesses[0])
  }

  /** Nodes hold no member access exactly when none of them is one. */
  lemma NoAccessesAmong(es: seq<Expr>)
    ensures MemberAccessesIn(es) == [] <==> forall e :: e in es ==> !e.MemberAccessExpr?
  {
    var accesses := MemberAccessesIn(es);
    assert forall e :: e in es && e.MemberAccessExpr? ==> e.access in accesses;
    if accesses != [] {
      assert accesses[0] in accesses;
    }
  }

  /** `t` is one of the statements written directly inside `s` (for a nested switch, in one of its sections). */
  ghost predicate ChildStatement(t: Statement, s: Statement)
  {
    match s
    case ThrowStatement(_) => false
    case Block(statements) => t in statements
    case NestedSwitch(sections) => exists sec :: sec in sections && t in sec.statements
    case OtherStatement(nested) => t in nested
  }

  /** With every statement, `r` also holds the statements written directly inside it, hence all nested ones. */
  ghost predicate StatementsClosed(r: seq<Statement>)
  {
    forall s, t :: s in r && ChildStatement(t, s) ==> t in r
  }

  /**
   * Every statement of `r` is one of the `roots` or written directly inside another
   * statement of `r`: together with `StatementsClosed`, `r` holds the roots, the
   * statements nested in them, and nothing else.
   */
  ghost predicate ReachedFrom(r: seq<Statement>, roots: seq<Statement>)
  {
    forall t :: t in r ==> t in roots || exists p :: p in r && ChildStatement(t, p)
  }

  /** Every statement in `ss` or nested in them at any depth, nested switch sections included, in document order. */
  function DescendantStatements(ss: seq<Statement>): (r: seq<Statement>)
    ensures forall s :: s in ss ==> s in r
    ensures StatementsClosed(r)
    ensures ReachedFrom(r, ss)
  {
    if ss == [] then []
    else
      assert forall s :: s in ss ==> s == ss[0] || s in ss[1..] by {
        assert ss == [ss[0]] + ss[1..];
      }
      [ss[0]] + ChildDescendants(ss[0]) + DescendantStatements(ss[1..])
  }

  function ChildDescendants(s: Statement): (r: seq<Statement>)
    ensures forall t :: ChildStatement(t, s) ==> t in r
    ensures StatementsClosed(r)
    ensures forall t :: t in r ==> ChildStatement(t, s) || exists p :: p in r && ChildStatement(t, p)
  {
    match s
    case ThrowStatement(_) => []
    case Block(statements) => DescendantStatements(statements)
    case NestedSwitch(sections) => SectionsDescendants(sections)
    case OtherStatement(nested) => DescendantStatements(nested)
  }

  function SectionsDescendants(secs: seq<Section>): (r: seq<Statement>)
    ensures forall sec, t :: sec in secs && t in sec.statements ==> t in r
    ensures StatementsClosed(r)
    ensures forall t :: t in r ==> (exists sec :: sec in secs && t in sec.statements) || exists p :: p in r && ChildStatement(t, p)
  {
    if secs == [] then []
    else
      assert forall sec :: sec in secs ==> sec == secs[0] || sec in secs[1..] by {
        assert secs == [secs[0]] + secs[1..];
      }
      DescendantStatements(secs[0].statements) + SectionsDescendants(secs[1..])
  }

  /** Descendants of a concatenation are the concatenation of the descendants. */
  lemma {:induction false} DescendantsOfConcat(ss: seq<Statement>, tt: seq<Statement>)
    ensures DescendantStatements(ss + tt) == DescendantStatements(ss) + DescendantStatements(tt)
  {
    if ss == [] {
      assert ss + tt == tt;
    } else {
      DescendantsOfConcat(ss[1..], tt);
      var st := ss + tt;
      assert st[0] == ss[0] && st[1..] == ss[1..] + tt;
      var head := [ss[0]] + ChildDescendants(ss[0]);
      calc {
        DescendantStatements(st);
        head + DescendantStatements(st[1..]);
        head + (DescendantStatements(ss[1..]) + DescendantStatements(tt));
        (head + DescendantStatements(ss[1..])) + DescendantStatements(tt);
        DescendantStatements(ss) + DescendantStatements(tt);
      }
    }
  }
}
