/**
 * The abstract syntax the table-reference check walks, source spans aside.
 *
 * - expressions, statements, patterns, types and assignment targets
 * - the tree they form: every node, its children from left to right
 * - the names a leaf contributes, with their `::` segments
 * - when a name is mentioned: at the end of some path of child positions
 */
module Syntax {
  import opened Prelude

  datatype LiteralKind = Integer | Decimal | Float | Date | Instant | String | Boolean | Null

  datatype ControlKind = If | Case | For | While | Loop

  datatype AssignmentOperator = Set | Add | Subtract | Multiply | Divide

  datatype TypeExpr =
    | NamedType(path: seq<string>, arguments: seq<TypeExpr>)
    | OptionalType(inner: TypeExpr)
    | ProductType(lhs: TypeExpr, op: string, rhs: TypeExpr)
    | ListType(inner: TypeExpr)
    | RecordType(fields: seq<TypeField>)
    | TupleType(elements: seq<TypeExpr>)
    | FunctionType(parameters: seq<TypeExpr>, result: TypeExpr)

  datatype TypeField = TypeField(name: string, fieldType: TypeExpr)

  datatype Pattern =
    | NamePattern(name: string)
    | Wildcard
    | LiteralPattern(text: string, kind: LiteralKind)
    | TuplePattern(elements: seq<Pattern>)
    | ListPattern(elements: seq<Pattern>)
    | RecordPattern(fields: seq<PatternField>)
    | Constructor(path: seq<string>, arguments: seq<Pattern>, fields: seq<PatternField>)

  datatype PatternField = PatternField(name: string, pattern: Option<Pattern>)

  datatype StringSegment = Text(text: string) | Interpolated(value: Expr)

  datatype Argument = Argument(name: Option<string>, value: Expr)

  datatype RecordField = RecordField(name: string, value: Expr)

  datatype LambdaParameter = LambdaParameter(pattern: Pattern, annotation: Option<TypeExpr>)

  datatype CaseArm = CaseArm(pattern: Pattern, guard: Option<Expr>, body: Expr)

  datatype AssignmentTarget =
    | NameTarget(name: string)
    | FieldTarget(base: AssignmentTarget, name: string)
    | IndexTarget(base: AssignmentTarget, index: Expr)

  datatype Statement =
    | Let(pattern: Pattern, annotation: Option<TypeExpr>, value: Expr)
    | Assert(value: Expr)
    | Return(result: Option<Expr>)
    | Break(result: Option<Expr>)
    | Continue
    | Assignment(target: AssignmentTarget, operator: AssignmentOperator, value: Expr)
    | ExpressionStatement(value: Expr)
    | ControlStatement(value: Expr)

  datatype Expr =
    | Name(text: string)
    | Literal(text: string, kind: LiteralKind)
    | InterpolatedString(segments: seq<StringSegment>)
    | ReplBinding(text: string)
    | Unary(op: string, rhs: Expr)
    | Binary(lhs: Expr, op: string, rhs: Expr)
    | Range(lower: Option<Expr>, op: string, upper: Option<Expr>)
    | Call(callee: Expr, arguments: seq<Argument>)
    | GenericCall(callee: Expr, typeArguments: seq<TypeExpr>, arguments: seq<Argument>)
    | Index(base: Expr, index: Expr)
    | Field(base: Expr, name: string)
    | Group(inner: Expr)
    | Tuple(elements: seq<Expr>)
    | Record(fields: seq<RecordField>)
    | Nominal(path: seq<string>, fields: seq<RecordField>)
    | List(elements: seq<Expr>)
    | Lambda(parameters: seq<LambdaParameter>, inner: Expr)
    | Block(statements: seq<Statement>, tail: Option<Expr>)
    | Control(control: ControlKind, binding: Option<Pattern>, condition: Option<Expr>, body: Option<Expr>,
        arms: seq<CaseArm>, alternate: Option<Expr>)

  // ---- The tree as such: every node, its children, and the names a leaf contributes ----

  datatype Node =
    | ExprNode(expr: Expr)
    | StatementNode(statement: Statement)
    | PatternNode(pattern: Pattern)
    | TypeNode(ty: TypeExpr)
    | TargetNode(target: AssignmentTarget)
    | ArgumentNode(argument: Argument)
    | RecordFieldNode(field: RecordField)
    | PatternFieldNode(patternField: PatternField)
    | TypeFieldNode(typeField: TypeField)
    | ParameterNode(parameter: LambdaParameter)
    | ArmNode(arm: CaseArm)
    | SegmentNode(segment: StringSegment)
    | Qualified(text: string)   // a reference, possibly `a::b::c`
    | Label(text: string)       // a field or argument name, taken whole

  function Exprs(xs: seq<Expr>): seq<Node> {
    seq(|xs|, i requires 0 <= i < |xs| => ExprNode(xs[i]))
  }

  function Statements(xs: seq<Statement>): seq<Node> {
    seq(|xs|, i requires 0 <= i < |xs| => StatementNode(xs[i]))
  }

  function Patterns(xs: seq<Pattern>): seq<Node> {
    seq(|xs|, i requires 0 <= i < |xs| => PatternNode(xs[i]))
  }

  function Types(xs: seq<TypeExpr>): seq<Node> {
    seq(|xs|, i requires 0 <= i < |xs| => TypeNode(xs[i]))
  }

  function Arguments(xs: seq<Argument>): seq<Node> {
    seq(|xs|, i requires 0 <= i < |xs| => ArgumentNode(xs[i]))
  }

  function RecordFields(xs: seq<RecordField>): seq<Node> {
    seq(|xs|, i requires 0 <= i < |xs| => RecordFieldNode(xs[i]))
  }

  function PatternFields(xs: seq<PatternField>): seq<Node> {
    seq(|xs|, i requires 0 <= i < |xs| => PatternFieldNode(xs[i]))
  }

  function TypeFields(xs: seq<TypeField>): seq<Node> {
    seq(|xs|, i requires 0 <= i < |xs| => TypeFieldNode(xs[i]))
  }

  function Parameters(xs: seq<LambdaParameter>): seq<Node> {
    seq(|xs|, i requires 0 <= i < |xs| => ParameterNode(xs[i]))
  }

  function Arms(xs: seq<CaseArm>): seq<Node> {
    seq(|xs|, i requires 0 <= i < |xs| => ArmNode(xs[i]))
  }

  function StringSegments(xs: seq<StringSegment>): seq<Node> {
    seq(|xs|, i requires 0 <= i < |xs| => SegmentNode(xs[i]))
  }

  function Path(xs: seq<string>): seq<Node> {
    seq(|xs|, i requires 0 <= i < |xs| => Qualified(xs[i]))
  }

  function OptionalExpr(x: Option<Expr>): seq<Node> {
    if x.Some? then [ExprNode(x.value)] else []
  }

  function OptionalPattern(x: Option<Pattern>): seq<Node> {
    if x.Some? then [PatternNode(x.value)] else []
  }

  function OptionalTypeExpr(x: Option<TypeExpr>): seq<Node> {
    if x.Some? then [TypeNode(x.value)] else []
  }

  function OptionalLabel(x: Option<string>): seq<Node> {
    if x.Some? then [Label(x.value)] else []
  }

  function Children(n: Node): seq<Node> {
    match n
    case ExprNode(e) => ExprChildren(e)
    case StatementNode(s) => StatementChildren(s)
    case PatternNode(p) => PatternChildren(p)
    case TypeNode(t) => TypeChildren(t)
    case TargetNode(t) => TargetChildren(t)
    case ArgumentNode(a) => OptionalLabel(a.name) + [ExprNode(a.value)]
    case RecordFieldNode(f) => [Label(f.name), ExprNode(f.value)]
    case PatternFieldNode(f) => [Label(f.name)] + OptionalPattern(f.pattern)
    case TypeFieldNode(f) => [Label(f.name), TypeNode(f.fieldType)]
    case ParameterNode(p) => [PatternNode(p.pattern)] + OptionalTypeExpr(p.annotation)
    case ArmNode(a) => [PatternNode(a.pattern)] + OptionalExpr(a.guard) + [ExprNode(a.body)]
    case SegmentNode(s) => if s.Interpolated? then [ExprNode(s.value)] else []
    case Qualified(_) => []
    case Label(_) => []
  }

  function ExprChildren(e: Expr): seq<Node> {
    match e
    case Name(text) => [Qualified(text)]
    case Literal(_, _) => []
    case InterpolatedString(segments) => StringSegments(segments)
    case ReplBinding(text) => [Qualified(text)]
    case Unary(_, rhs) => [ExprNode(rhs)]
    case Binary(lhs, _, rhs) => [ExprNode(lhs), ExprNode(rhs)]
    case Range(lower, _, upper) => OptionalExpr(lower) + OptionalExpr(upper)
    case Call(callee, arguments) => [ExprNode(callee)] + Arguments(arguments)
    case GenericCall(callee, types, arguments) => [ExprNode(callee)] + Types(types) + Arguments(arguments)
    case Index(base, index) => [ExprNode(base), ExprNode(index)]
    case Field(base, name) => [ExprNode(base), Qualified(name)]
    case Group(inner) => [ExprNode(inner)]
    case Tuple(elements) => Exprs(elements)
    case Record(fields) => RecordFields(fields)
    case Nominal(path, fields) => Path(path) + RecordFields(fields)
    case List(elements) => Exprs(elements)
    case Lambda(parameters, inner) => Parameters(parameters) + [ExprNode(inner)]
    case Block(statements, tail) => Statements(statements) + OptionalExpr(tail)
    case Control(_, binding, condition, body, arms, alternate) =>
      OptionalPattern(binding) + OptionalExpr(condition) + OptionalExpr(body) + Arms(arms)
        + OptionalExpr(alternate)
  }

  function StatementChildren(s: Statement): seq<Node> {
    match s
    case Let(pattern, annotation, value) => [PatternNode(pattern)] + OptionalTypeExpr(annotation) + [ExprNode(value)]
    case Return(result) => OptionalExpr(result)
    case Break(result) => OptionalExpr(result)
    case Continue => []
    case Assignment(target, _, value) => [TargetNode(target), ExprNode(value)]
    case _ => [ExprNode(s.value)]
  }

  function PatternChildren(p: Pattern): seq<Node> {
    match p
    case NamePattern(name) => [Qualified(name)]
    case Wildcard => []
    case LiteralPattern(_, _) => []
    case TuplePattern(elements) => Patterns(elements)
    case ListPattern(elements) => Patterns(elements)
    case RecordPattern(fields) => PatternFields(fields)
    case Constructor(path, arguments, fields) =>
      Path(path) + Patterns(arguments) + PatternFields(fields)
  }

  function TypeChildren(t: TypeExpr): seq<Node> {
    match t
    case NamedType(path, arguments) => Path(path) + Types(arguments)
    case OptionalType(inner) => [TypeNode(inner)]
    case ProductType(lhs, _, rhs) => [TypeNode(lhs), TypeNode(rhs)]
    case ListType(inner) => [TypeNode(inner)]
    case RecordType(fields) => TypeFields(fields)
    case TupleType(elements) => Types(elements)
    case FunctionType(parameters, result) => Types(parameters) + [TypeNode(result)]
  }

  function TargetChildren(t: AssignmentTarget): seq<Node> {
    match t
    case NameTarget(name) => [Qualified(name)]
    case FieldTarget(base, name) => [TargetNode(base), Qualified(name)]
    case IndexTarget(base, index) => [TargetNode(base), ExprNode(index)]
  }

  // ---- The children leave nothing out ----

  predicate BothOrNeither<T>(x: Option<T>, y: Option<T>) { x.Some? <==> y.Some? }

  /** One constructor, the same operators and literal texts, the same optional parts, lists of one length. */
  predicate SameExprForm(e: Expr, f: Expr) {
    match e
    case Name(_) => f.Name?
    case Literal(text, kind) => f.Literal? && f.text == text && f.kind == kind
    case InterpolatedString(segments) => f.InterpolatedString? && |f.segments| == |segments|
    case ReplBinding(_) => f.ReplBinding?
    case Unary(op, _) => f.Unary? && f.op == op
    case Binary(_, op, _) => f.Binary? && f.op == op
    case Range(lower, op, upper) =>
      f.Range? && f.op == op && BothOrNeither(f.lower, lower) && BothOrNeither(f.upper, upper)
    case Call(_, arguments) => f.Call? && |f.arguments| == |arguments|
    case GenericCall(_, types, arguments) =>
      f.GenericCall? && |f.typeArguments| == |types| && |f.arguments| == |arguments|
    case Index(_, _) => f.Index?
    case Field(_, _) => f.Field?
    case Group(_) => f.Group?
    case Tuple(elements) => f.Tuple? && |f.elements| == |elements|
    case Record(fields) => f.Record? && |f.fields| == |fields|
    case Nominal(path, fields) => f.Nominal? && |f.path| == |path| && |f.fields| == |fields|
    case List(elements) => f.List? && |f.elements| == |elements|
    case Lambda(parameters, _) => f.Lambda? && |f.parameters| == |parameters|
    case Block(statements, tail) => f.Block? && |f.statements| == |statements| && BothOrNeither(f.tail, tail)
    case Control(control, binding, condition, body, arms, alternate) =>
      && f.Control? && f.control == control && |f.arms| == |arms|
      && BothOrNeither(f.binding, binding) && BothOrNeither(f.condition, condition)
      && BothOrNeither(f.body, body) && BothOrNeither(f.alternate, alternate)
  }

  predicate SameStatementForm(s: Statement, t: Statement) {
    match s
    case Let(_, annotation, _) => t.Let? && BothOrNeither(t.annotation, annotation)
    case Assert(_) => t.Assert?
    case Return(result) => t.Return? && BothOrNeither(t.result, result)
    case Break(result) => t.Break? && BothOrNeither(t.result, result)
    case Continue => t.Continue?
    case Assignment(_, operator, _) => t.Assignment? && t.operator == operator
    case ExpressionStatement(_) => t.ExpressionStatement?
    case ControlStatement(_) => t.ControlStatement?
  }

  predicate SamePatternForm(p: Pattern, q: Pattern) {
    match p
    case NamePattern(_) => q.NamePattern?
    case Wildcard => q.Wildcard?
    case LiteralPattern(text, kind) => q.LiteralPattern? && q.text == text && q.kind == kind
    case TuplePattern(elements) => q.TuplePattern? && |q.elements| == |elements|
    case ListPattern(elements) => q.ListPattern? && |q.elements| == |elements|
    case RecordPattern(fields) => q.RecordPattern? && |q.fields| == |fields|
    case Constructor(path, arguments, fields) =>
      q.Constructor? && |q.path| == |path| && |q.arguments| == |arguments| && |q.fields| == |fields|
  }

  predicate SameTypeForm(t: TypeExpr, u: TypeExpr) {
    match t
    case NamedType(path, arguments) => u.NamedType? && |u.path| == |path| && |u.arguments| == |arguments|
    case OptionalType(_) => u.OptionalType?
    case ProductType(_, op, _) => u.ProductType? && u.op == op
    case ListType(_) => u.ListType?
    case RecordType(fields) => u.RecordType? && |u.fields| == |fields|
    case TupleType(elements) => u.TupleType? && |u.elements| == |elements|
    case FunctionType(parameters, _) => u.FunctionType? && |u.parameters| == |parameters|
  }

  predicate SameTargetForm(t: AssignmentTarget, u: AssignmentTarget) {
    (t.NameTarget? <==> u.NameTarget?) && (t.FieldTarget? <==> u.FieldTarget?)
  }

  predicate SameForm(n: Node, m: Node) {
    match n
    case ExprNode(e) => m.ExprNode? && SameExprForm(e, m.expr)
    case StatementNode(s) => m.StatementNode? && SameStatementForm(s, m.statement)
    case PatternNode(p) => m.PatternNode? && SamePatternForm(p, m.pattern)
    case TypeNode(t) => m.TypeNode? && SameTypeForm(t, m.ty)
    case TargetNode(t) => m.TargetNode? && SameTargetForm(t, m.target)
    case ArgumentNode(a) => m.ArgumentNode? && BothOrNeither(a.name, m.argument.name)
    case RecordFieldNode(_) => m.RecordFieldNode?
    case PatternFieldNode(f) => m.PatternFieldNode? && BothOrNeither(f.pattern, m.patternField.pattern)
    case TypeFieldNode(_) => m.TypeFieldNode?
    case ParameterNode(p) => m.ParameterNode? && BothOrNeither(p.annotation, m.parameter.annotation)
    case ArmNode(a) => m.ArmNode? && BothOrNeither(a.guard, m.arm.guard)
    case SegmentNode(s) =>
      m.SegmentNode? && (s.Text? <==> m.segment.Text?) && (s.Text? ==> s.text == m.segment.text)
    case Qualified(text) => m == n
    case Label(text) => m == n
  }

  /** Two concatenations with first parts of one length are equal part by part. */
  lemma Parts(a: seq<Node>, b: seq<Node>, c: seq<Node>, d: seq<Node>)
    requires a + b == c + d && |a| == |c|
    ensures a == c && b == d
  {
    assert (a + b)[..|a|] == a && (c + d)[..|c|] == c && (a + b)[|a|..] == b && (c + d)[|c|..] == d;
  }

  lemma ExprsDetermined(xs: seq<Expr>, ys: seq<Expr>)
    requires Exprs(xs) == Exprs(ys)
    ensures xs == ys
  {
    assert |Exprs(xs)| == |xs| && |Exprs(ys)| == |ys|;
    forall i | 0 <= i < |xs| ensures xs[i] == ys[i] {
      assert Exprs(xs)[i] == ExprNode(xs[i]) && Exprs(ys)[i] == ExprNode(ys[i]);
    }
  }

  lemma StatementsDetermined(xs: seq<Statement>, ys: seq<Statement>)
    requires Statements(xs) == Statements(ys)
    ensures xs == ys
  {
    assert |Statements(xs)| == |xs| && |Statements(ys)| == |ys|;
    forall i | 0 <= i < |xs| ensures xs[i] == ys[i] {
      assert Statements(xs)[i] == StatementNode(xs[i]) && Statements(ys)[i] == StatementNode(ys[i]);
    }
  }

  lemma PatternsDetermined(xs: seq<Pattern>, ys: seq<Pattern>)
    requires Patterns(xs) == Patterns(ys)
    ensures xs == ys
  {
    assert |Patterns(xs)| == |xs| && |Patterns(ys)| == |ys|;
    forall i | 0 <= i < |xs| ensures xs[i] == ys[i] {
      assert Patterns(xs)[i] == PatternNode(xs[i]) && Patterns(ys)[i] == PatternNode(ys[i]);
    }
  }

  lemma TypesDetermined(xs: seq<TypeExpr>, ys: seq<TypeExpr>)
    requires Types(xs) == Types(ys)
    ensures xs == ys
  {
    assert |Types(xs)| == |xs| && |Types(ys)| == |ys|;
    forall i | 0 <= i < |xs| ensures xs[i] == ys[i] {
      assert Types(xs)[i] == TypeNode(xs[i]) && Types(ys)[i] == TypeNode(ys[i]);
    }
  }

  lemma ArgumentsDetermined(xs: seq<Argument>, ys: seq<Argument>)
    requires Arguments(xs) == Arguments(ys)
    ensures xs == ys
  {
    assert |Arguments(xs)| == |xs| && |Arguments(ys)| == |ys|;
    forall i | 0 <= i < |xs| ensures xs[i] == ys[i] {
      assert Arguments(xs)[i] == ArgumentNode(xs[i]) && Arguments(ys)[i] == ArgumentNode(ys[i]);
    }
  }

  lemma RecordFieldsDetermined(xs: seq<RecordField>, ys: seq<RecordField>)
    requires RecordFields(xs) == RecordFields(ys)
    ensures xs == ys
  {
    assert |RecordFields(xs)| == |xs| && |RecordFields(ys)| == |ys|;
    forall i | 0 <= i < |xs| ensures xs[i] == ys[i] {
      assert RecordFields(xs)[i] == RecordFieldNode(xs[i]) && RecordFields(ys)[i] == RecordFieldNode(ys[i]);
    }
  }

  lemma PatternFieldsDetermined(xs: seq<PatternField>, ys: seq<PatternField>)
    requires PatternFields(xs) == PatternFields(ys)
    ensures xs == ys
  {
    assert |PatternFields(xs)| == |xs| && |PatternFields(ys)| == |ys|;
    forall i | 0 <= i < |xs| ensures xs[i] == ys[i] {
      assert PatternFields(xs)[i] == PatternFieldNode(xs[i]) && PatternFields(ys)[i] == PatternFieldNode(ys[i]);
    }
  }

  lemma TypeFieldsDetermined(xs: seq<TypeField>, ys: seq<TypeField>)
    requires TypeFields(xs) == TypeFields(ys)
    ensures xs == ys
  {
    assert |TypeFields(xs)| == |xs| && |TypeFields(ys)| == |ys|;
    forall i | 0 <= i < |xs| ensures xs[i] == ys[i] {
      assert TypeFields(xs)[i] == TypeFieldNode(xs[i]) && TypeFields(ys)[i] == TypeFieldNode(ys[i]);
    }
  }

  lemma ParametersDetermined(xs: seq<LambdaParameter>, ys: seq<LambdaParameter>)
    requires Parameters(xs) == Parameters(ys)
    ensures xs == ys
  {
    assert |Parameters(xs)| == |xs| && |Parameters(ys)| == |ys|;
    forall i | 0 <= i < |xs| ensures xs[i] == ys[i] {
      assert Parameters(xs)[i] == ParameterNode(xs[i]) && Parameters(ys)[i] == ParameterNode(ys[i]);
    }
  }

  lemma ArmsDetermined(xs: seq<CaseArm>, ys: seq<CaseArm>)
    requires Arms(xs) == Arms(ys)
    ensures xs == ys
  {
    assert |Arms(xs)| == |xs| && |Arms(ys)| == |ys|;
    forall i | 0 <= i < |xs| ensures xs[i] == ys[i] {
      assert Arms(xs)[i] == ArmNode(xs[i]) && Arms(ys)[i] == ArmNode(ys[i]);
    }
  }

  lemma StringSegmentsDetermined(xs: seq<StringSegment>, ys: seq<StringSegment>)
    requires StringSegments(xs) == StringSegments(ys)
    ensures xs == ys
  {
    assert |StringSegments(xs)| == |xs| && |StringSegments(ys)| == |ys|;
    forall i | 0 <= i < |xs| ensures xs[i] == ys[i] {
      assert StringSegments(xs)[i] == SegmentNode(xs[i]) && StringSegments(ys)[i] == SegmentNode(ys[i]);
    }
  }

  lemma PathDetermined(xs: seq<string>, ys: seq<string>)
    requires Path(xs) == Path(ys)
    ensures xs == ys
  {
    assert |Path(xs)| == |xs| && |Path(ys)| == |ys|;
    forall i | 0 <= i < |xs| ensures xs[i] == ys[i] {
      assert Path(xs)[i] == Qualified(xs[i]) && Path(ys)[i] == Qualified(ys[i]);
    }
  }

  lemma ExprDetermined(e: Expr, f: Expr)
    requires SameExprForm(e, f) && ExprChildren(e) == ExprChildren(f)
    ensures e == f
  {
    match e {
      case InterpolatedString(segments) => StringSegmentsDetermined(segments, f.segments);
      case Binary(lhs, _, rhs) =>
        assert ExprChildren(e)[0] == ExprChildren(f)[0] && ExprChildren(e)[1] == ExprChildren(f)[1];
      case Range(lower, _, upper) =>
        Parts(OptionalExpr(lower), OptionalExpr(upper), OptionalExpr(f.lower), OptionalExpr(f.upper));
        OptionalDetermined(lower, f.lower);
        OptionalDetermined(upper, f.upper);
      case Call(callee, arguments) =>
        Parts([ExprNode(callee)], Arguments(arguments), [ExprNode(f.callee)], Arguments(f.arguments));
        assert [ExprNode(callee)][0] == [ExprNode(f.callee)][0];
        ArgumentsDetermined(arguments, f.arguments);
      case GenericCall(callee, types, arguments) =>
        var a, b := [ExprNode(callee)] + Types(types), [ExprNode(f.callee)] + Types(f.typeArguments);
        Parts(a, Arguments(arguments), b, Arguments(f.arguments));
        Parts([ExprNode(callee)], Types(types), [ExprNode(f.callee)], Types(f.typeArguments));
        assert [ExprNode(callee)][0] == [ExprNode(f.callee)][0];
        TypesDetermined(types, f.typeArguments);
        ArgumentsDetermined(arguments, f.arguments);
      case Index(base, index) =>
        assert ExprChildren(e)[0] == ExprChildren(f)[0] && ExprChildren(e)[1] == ExprChildren(f)[1];
      case Field(base, name) =>
        assert ExprChildren(e)[0] == ExprChildren(f)[0] && ExprChildren(e)[1] == ExprChildren(f)[1];
      case Tuple(elements) => ExprsDetermined(elements, f.elements);
      case Record(fields) => RecordFieldsDetermined(fields, f.fields);
      case Nominal(path, fields) =>
        Parts(Path(path), RecordFields(fields), Path(f.path), RecordFields(f.fields));
        PathDetermined(path, f.path);
        RecordFieldsDetermined(fields, f.fields);
      case List(elements) => ExprsDetermined(elements, f.elements);
      case Lambda(parameters, inner) =>
        Parts(Parameters(parameters), [ExprNode(inner)], Parameters(f.parameters), [ExprNode(f.inner)]);
        assert [ExprNode(inner)][0] == [ExprNode(f.inner)][0];
        ParametersDetermined(parameters, f.parameters);
      case Block(statements, tail) =>
        Parts(Statements(statements), OptionalExpr(tail), Statements(f.statements), OptionalExpr(f.tail));
        StatementsDetermined(statements, f.statements);
        OptionalDetermined(tail, f.tail);
      case Control(_, _, _, _, _, _) => ControlDetermined(e, f);
      case Literal(_, _) =>
      case _ => assert ExprChildren(e)[0] == ExprChildren(f)[0];
    }
  }

  lemma OptionalDetermined(x: Option<Expr>, y: Option<Expr>)
    requires OptionalExpr(x) == OptionalExpr(y)
    ensures x == y
  {
    if x.Some? { assert OptionalExpr(x)[0] == OptionalExpr(y)[0]; }
  }

  lemma OptionalTypeDetermined(x: Option<TypeExpr>, y: Option<TypeExpr>)
    requires OptionalTypeExpr(x) == OptionalTypeExpr(y)
    ensures x == y
  {
    if x.Some? { assert OptionalTypeExpr(x)[0] == OptionalTypeExpr(y)[0]; }
  }

  lemma OptionalPatternDetermined(x: Option<Pattern>, y: Option<Pattern>)
    requires OptionalPattern(x) == OptionalPattern(y)
    ensures x == y
  {
    if x.Some? { assert OptionalPattern(x)[0] == OptionalPattern(y)[0]; }
  }

  lemma OptionalLabelDetermined(x: Option<string>, y: Option<string>)
    requires OptionalLabel(x) == OptionalLabel(y)
    ensures x == y
  {
    if x.Some? { assert OptionalLabel(x)[0] == OptionalLabel(y)[0]; }
  }

  lemma ControlDetermined(e: Expr, f: Expr)
    requires e.Control? && SameExprForm(e, f) && ExprChildren(e) == ExprChildren(f)
    ensures e == f
  {
    var a1, b1 := OptionalPattern(e.binding), OptionalPattern(f.binding);
    var a2, b2 := a1 + OptionalExpr(e.condition), b1 + OptionalExpr(f.condition);
    var a3, b3 := a2 + OptionalExpr(e.body), b2 + OptionalExpr(f.body);
    var a4, b4 := a3 + Arms(e.arms), b3 + Arms(f.arms);
    Parts(a4, OptionalExpr(e.alternate), b4, OptionalExpr(f.alternate));
    Parts(a3, Arms(e.arms), b3, Arms(f.arms));
    Parts(a2, OptionalExpr(e.body), b2, OptionalExpr(f.body));
    Parts(a1, OptionalExpr(e.condition), b1, OptionalExpr(f.condition));
    OptionalPatternDetermined(e.binding, f.binding);
    OptionalDetermined(e.condition, f.condition);
    OptionalDetermined(e.body, f.body);
    ArmsDetermined(e.arms, f.arms);
    OptionalDetermined(e.alternate, f.alternate);
  }

  lemma StatementDetermined(s: Statement, t: Statement)
    requires SameStatementForm(s, t) && StatementChildren(s) == StatementChildren(t)
    ensures s == t
  {
    match s {
      case Let(pattern, annotation, value) =>
        var a, b := [PatternNode(pattern)] + OptionalTypeExpr(annotation),
                    [PatternNode(t.pattern)] + OptionalTypeExpr(t.annotation);
        Parts(a, [ExprNode(value)], b, [ExprNode(t.value)]);
        Parts([PatternNode(pattern)], OptionalTypeExpr(annotation),
              [PatternNode(t.pattern)], OptionalTypeExpr(t.annotation));
        assert [ExprNode(value)][0] == [ExprNode(t.value)][0];
        assert [PatternNode(pattern)][0] == [PatternNode(t.pattern)][0];
        OptionalTypeDetermined(annotation, t.annotation);
      case Return(result) => OptionalDetermined(result, t.result);
      case Break(result) => OptionalDetermined(result, t.result);
      case Continue =>
      case Assignment(target, _, value) =>
        assert StatementChildren(s)[0] == StatementChildren(t)[0] && StatementChildren(s)[1] == StatementChildren(t)[1];
      case _ => assert StatementChildren(s)[0] == StatementChildren(t)[0];
    }
  }

  lemma PatternDetermined(p: Pattern, q: Pattern)
    requires SamePatternForm(p, q) && PatternChildren(p) == PatternChildren(q)
    ensures p == q
  {
    match p {
      case NamePattern(_) => assert PatternChildren(p)[0] == PatternChildren(q)[0];
      case Wildcard =>
      case LiteralPattern(_, _) =>
      case TuplePattern(elements) => PatternsDetermined(elements, q.elements);
      case ListPattern(elements) => PatternsDetermined(elements, q.elements);
      case RecordPattern(fields) => PatternFieldsDetermined(fields, q.fields);
      case Constructor(path, arguments, fields) =>
        Parts(Path(path) + Patterns(arguments), PatternFields(fields),
              Path(q.path) + Patterns(q.arguments), PatternFields(q.fields));
        Parts(Path(path), Patterns(arguments), Path(q.path), Patterns(q.arguments));
        PathDetermined(path, q.path);
        PatternsDetermined(arguments, q.arguments);
        PatternFieldsDetermined(fields, q.fields);
    }
  }

  lemma TypeDetermined(t: TypeExpr, u: TypeExpr)
    requires SameTypeForm(t, u) && TypeChildren(t) == TypeChildren(u)
    ensures t == u
  {
    match t {
      case NamedType(path, arguments) =>
        Parts(Path(path), Types(arguments), Path(u.path), Types(u.arguments));
        PathDetermined(path, u.path);
        TypesDetermined(arguments, u.arguments);
      case RecordType(fields) => TypeFieldsDetermined(fields, u.fields);
      case TupleType(elements) => TypesDetermined(elements, u.elements);
      case FunctionType(parameters, result) =>
        Parts(Types(parameters), [TypeNode(result)], Types(u.parameters), [TypeNode(u.result)]);
        assert [TypeNode(result)][0] == [TypeNode(u.result)][0];
        TypesDetermined(parameters, u.parameters);
      case ProductType(_, _, _) =>
        assert TypeChildren(t)[0] == TypeChildren(u)[0] && TypeChildren(t)[1] == TypeChildren(u)[1];
      case _ => assert TypeChildren(t)[0] == TypeChildren(u)[0];
    }
  }

  lemma TargetDetermined(t: AssignmentTarget, u: AssignmentTarget)
    requires SameTargetForm(t, u) && TargetChildren(t) == TargetChildren(u)
    ensures t == u
  {
    assert TargetChildren(t)[0] == TargetChildren(u)[0];
    if !t.NameTarget? { assert TargetChildren(t)[1] == TargetChildren(u)[1]; }
  }

  /**
   * The children leave no part of a node out: nodes of one form with the same children are the same,
   * for expressions, statements, patterns, types, targets and the pieces they are made of.
   */
  lemma NodeDetermined(n: Node, m: Node)
    requires SameForm(n, m) && Children(n) == Children(m)
    ensures n == m
  {
    hide ExprChildren, StatementChildren, PatternChildren, TypeChildren, TargetChildren;
    hide SameExprForm, SameStatementForm, SamePatternForm, SameTypeForm, SameTargetForm;
    match n {
      case ExprNode(e) => ExprDetermined(e, m.expr);
      case StatementNode(s) => StatementDetermined(s, m.statement);
      case PatternNode(p) => PatternDetermined(p, m.pattern);
      case TypeNode(t) => TypeDetermined(t, m.ty);
      case TargetNode(t) => TargetDetermined(t, m.target);
      case ArgumentNode(a) =>
        Parts(OptionalLabel(a.name), [ExprNode(a.value)], OptionalLabel(m.argument.name), [ExprNode(m.argument.value)]);
        assert [ExprNode(a.value)][0] == [ExprNode(m.argument.value)][0];
        OptionalLabelDetermined(a.name, m.argument.name);
      case PatternFieldNode(f) =>
        var g := m.patternField;
        Parts([Label(f.name)], OptionalPattern(f.pattern), [Label(g.name)], OptionalPattern(g.pattern));
        assert [Label(f.name)][0] == [Label(g.name)][0];
        OptionalPatternDetermined(f.pattern, g.pattern);
      case ParameterNode(p) =>
        var q := m.parameter;
        Parts([PatternNode(p.pattern)], OptionalTypeExpr(p.annotation),
              [PatternNode(q.pattern)], OptionalTypeExpr(q.annotation));
        assert [PatternNode(p.pattern)][0] == [PatternNode(q.pattern)][0];
        OptionalTypeDetermined(p.annotation, q.annotation);
      case ArmNode(a) => ArmDetermined(a, m.arm);
      case SegmentNode(s) => if s.Interpolated? { assert Children(n)[0] == Children(m)[0]; }
      case RecordFieldNode(_) => assert Children(n)[0] == Children(m)[0] && Children(n)[1] == Children(m)[1];
      case TypeFieldNode(_) => assert Children(n)[0] == Children(m)[0] && Children(n)[1] == Children(m)[1];
      case _ =>
    }
  }

  lemma ArmDetermined(a: CaseArm, b: CaseArm)
    requires BothOrNeither(a.guard, b.guard) && Children(ArmNode(a)) == Children(ArmNode(b))
    ensures a == b
  {
    var x, y := [PatternNode(a.pattern)] + OptionalExpr(a.guard), [PatternNode(b.pattern)] + OptionalExpr(b.guard);
    Parts(x, [ExprNode(a.body)], y, [ExprNode(b.body)]);
    Parts([PatternNode(a.pattern)], OptionalExpr(a.guard), [PatternNode(b.pattern)], OptionalExpr(b.guard));
    assert [ExprNode(a.body)][0] == [ExprNode(b.body)][0];
    assert [PatternNode(a.pattern)][0] == [PatternNode(b.pattern)][0];
    OptionalDetermined(a.guard, b.guard);
  }

  // ---- Names and their `::` segments ----

  const SEPARATOR: string := "::"

  predicate SeparatorAt(s: string, i: int) {
    0 <= i && i + 2 <= |s| && s[i..i + 2] == SEPARATOR
  }

  /** The first separator at or after `i`, or the end of the text. */
  function FirstSeparator(s: string, i: nat): (r: nat)
    requires i <= |s|
    ensures i <= r <= |s| && (r < |s| ==> SeparatorAt(s, r))
    ensures forall k | i <= k < r :: !SeparatorAt(s, k)
    decreases |s| - i
  {
    if i == |s| || SeparatorAt(s, i) then i else FirstSeparator(s, i + 1)
  }

  /** The text between separators, found from the left. */
  function Segments(s: string): (r: seq<string>)
    ensures r != []
    decreases |s|
  {
    var i := FirstSeparator(s, 0);
    if i == |s| then [s] else [s[..i]] + Segments(s[i + 2..])
  }

  function Joined(parts: seq<string>): string {
    if parts == [] then "" else if |parts| == 1 then parts[0] else parts[0] + SEPARATOR + Joined(parts[1..])
  }

  /**
   * A text split at its separators from the left: the parts joined give it back, no part holds a
   * separator, and none but the last ends in a colon, which would have made one further left.
   */
  predicate SplitInto(s: string, parts: seq<string>) {
    && parts != [] && Joined(parts) == s
    && (forall part, k | part in parts && 0 <= k < |part| :: !SeparatorAt(part, k))
    && (forall i | 0 <= i < |parts| - 1 :: parts[i] == "" || parts[i][|parts[i]| - 1] != ':')
  }

  /** The segments of a name are the one way to split it. */
  lemma {:induction false} SegmentsExact(s: string, parts: seq<string>)
    ensures Segments(s) == parts <==> SplitInto(s, parts)
    decreases |s|
  {
    hide SeparatorAt;
    var i := FirstSeparator(s, 0);
    if i == |s| {
      assert s[..|s|] == s;
      FirstSegmentClean(s, |s|);
      if SplitInto(s, parts) {
        if |parts| > 1 { FirstPartEnds(s, parts); }
        assert parts == [parts[0]];
      }
    } else {
      SplitJoins(s, i);
      var rest := s[i + 2..];
      SegmentsExact(rest, Segments(rest));
      if Segments(s) == parts {
        assert parts[1..] == Segments(rest);
        SplitFurther(s, i, parts);
      }
      if SplitInto(s, parts) {
        SecondPart(s, parts, i);
        FirstPartEnds(s, parts);
        SplitRest(s, parts);
        SegmentsExact(rest, parts[1..]);
        assert parts == [parts[0]] + parts[1..];
      }
    }
  }

  lemma SecondPart(s: string, parts: seq<string>, i: nat)
    requires SplitInto(s, parts) && i < |s| && SeparatorAt(s, i)
    ensures |parts| > 1
  {
    hide SeparatorAt;
    assert parts[0] in parts;
  }

  lemma NoneInside(p: string, rest: string, k: nat)
    requires k < |p| && !SeparatorAt(p, k) && p[|p| - 1] != ':'
    ensures !SeparatorAt(p + SEPARATOR + rest, k)
  {
    var s := p + SEPARATOR + rest;
    if k + 1 < |p| { assert s[k..k + 2] == p[k..k + 2]; } else { assert s[k..k + 2][0] == p[k]; }
  }

  lemma ColonBefore(s: string, i: nat)
    requires 0 < i && SeparatorAt(s, i) && s[i - 1] == ':'
    ensures SeparatorAt(s, i - 1)
  {
    assert s[i..i + 2][0] == ':';
    assert s[i - 1..i + 1] == [s[i - 1], s[i]];
  }

  lemma SeparatorAfter(p: string, rest: string)
    ensures SeparatorAt(p + SEPARATOR + rest, |p|)
    ensures (p + SEPARATOR + rest)[|p| + 2..] == rest && (p + SEPARATOR + rest)[..|p|] == p
  {
    var s := p + SEPARATOR + rest;
    assert s[|p|..|p| + 2] == SEPARATOR;
  }

  /** The first separator of a split text is the one after its first part. */
  lemma FirstPartEnds(s: string, parts: seq<string>)
    requires SplitInto(s, parts) && |parts| > 1
    ensures FirstSeparator(s, 0) == |parts[0]| < |s| && s[..|parts[0]|] == parts[0]
    ensures s[|parts[0]| + 2..] == Joined(parts[1..])
  {
    hide SeparatorAt;
    var p, rest := parts[0], Joined(parts[1..]);
    assert s == p + SEPARATOR + rest;
    SeparatorAfter(p, rest);
    assert p in parts;
    forall k | 0 <= k < |p| ensures !SeparatorAt(s, k) { NoneInside(p, rest, k); }
    assert |s| >= |p| + 2;
  }

  lemma SplitRest(s: string, parts: seq<string>)
    requires SplitInto(s, parts) && |parts| > 1
    ensures SplitInto(Joined(parts[1..]), parts[1..])
  {
    hide SeparatorAt;
    var rest := parts[1..];
    assert forall part | part in rest :: part in parts;
    assert forall i | 0 <= i < |rest| :: rest[i] == parts[i + 1];
  }

  lemma SplitFurther(s: string, i: nat, parts: seq<string>)
    requires i == FirstSeparator(s, 0) < |s| && i + 2 <= |s|
    requires |parts| > 1 && parts[0] == s[..i] && SplitInto(s[i + 2..], parts[1..])
    ensures SplitInto(s, parts)
  {
    hide FirstSeparator, SeparatorAt;
    FirstSegmentClean(s, i);
    SplitJoins(s, i);
    if i > 0 && s[i - 1] == ':' { ColonBefore(s, i); }
    assert i > 0 ==> s[..i][i - 1] == s[i - 1];
    CleanParts(parts);
    assert forall k | 0 < k < |parts| - 1 :: parts[k] == parts[1..][k - 1];
  }

  lemma CleanParts(parts: seq<string>)
    requires |parts| > 0 && forall k | 0 <= k < |parts[0]| :: !SeparatorAt(parts[0], k)
    requires forall part, k | part in parts[1..] && 0 <= k < |part| :: !SeparatorAt(part, k)
    ensures forall part, k | part in parts && 0 <= k < |part| :: !SeparatorAt(part, k)
  {
    hide SeparatorAt;
    assert parts == [parts[0]] + parts[1..];
  }

  lemma SplitJoins(s: string, i: nat)
    requires SeparatorAt(s, i)
    ensures i + 2 <= |s| && s == s[..i] + SEPARATOR + s[i + 2..]
  {
  }

  lemma FirstSegmentClean(s: string, i: nat)
    requires i <= |s| && forall k | 0 <= k < i :: !SeparatorAt(s, k)
    ensures forall k :: !SeparatorAt(s[..i], k)
  {
    forall k ensures !SeparatorAt(s[..i], k) {
      if 0 <= k && k + 2 <= i {
        assert s[..i][k..k + 2] == s[k..k + 2];
        assert !SeparatorAt(s, k);
      }
    }
  }

  /** The names a node contributes itself. */
  function Own(n: Node): set<string> {
    match n
    case Qualified(text) => {text} + set part | part in Segments(text)
    case Label(text) => {text}
    case _ => {}
  }

  /** A qualified text stands for itself and for each part it splits into. */
  lemma OwnExact(text: string, id: string)
    ensures id in Own(Qualified(text)) <==> id == text || exists parts :: SplitInto(text, parts) && id in parts
  {
    hide SplitInto, Segments;
    SegmentsExact(text, Segments(text));
    if parts :| SplitInto(text, parts) && id in parts { SegmentsExact(text, parts); }
  }

  lemma NoExprLabels(e: Expr)
    ensures forall m | m in ExprChildren(e) :: !m.Label?
  {
    if e.Control? {
      var a, b := OptionalPattern(e.binding), OptionalExpr(e.condition);
      var c, d, f := OptionalExpr(e.body), Arms(e.arms), OptionalExpr(e.alternate);
      assert forall m | m in d :: m.ArmNode?;
      hide OptionalPattern, OptionalExpr, Arms;
      forall m | m in ExprChildren(e) ensures m in a || m in b || m in c || m in d || m in f {}
    }
  }

  lemma NoStatementLabels(s: Statement)
    ensures forall m | m in StatementChildren(s) :: !m.Label?
  {
  }

  lemma NoPatternLabels(p: Pattern)
    ensures forall m | m in PatternChildren(p) :: !m.Label?
  {
  }

  lemma NoTypeLabels(t: TypeExpr)
    ensures forall m | m in TypeChildren(t) :: !m.Label?
  {
  }

  lemma NoTargetLabels(t: AssignmentTarget)
    ensures forall m | m in TargetChildren(t) :: !m.Label?
  {
  }

  /** Only the names of arguments and of fields are taken whole; every other text is split. */
  lemma LabelExact(n: Node, text: string)
    ensures Label(text) in Children(n) <==>
      match n
      case ArgumentNode(a) => a.name == Some(text)
      case RecordFieldNode(f) => f.name == text
      case PatternFieldNode(f) => f.name == text
      case TypeFieldNode(f) => f.name == text
      case _ => false
  {
    hide ExprChildren, StatementChildren, PatternChildren, TypeChildren, TargetChildren;
    match n {
      case ExprNode(e) => NoExprLabels(e);
      case StatementNode(s) => NoStatementLabels(s);
      case PatternNode(p) => NoPatternLabels(p);
      case TypeNode(t) => NoTypeLabels(t);
      case TargetNode(t) => NoTargetLabels(t);
      case ArgumentNode(a) => if a.name == Some(text) { assert Children(n)[0] == Label(text); }
      case RecordFieldNode(f) => if f.name == text { assert Children(n)[0] == Label(text); }
      case PatternFieldNode(f) => if f.name == text { assert Children(n)[0] == Label(text); }
      case TypeFieldNode(f) => if f.name == text { assert Children(n)[0] == Label(text); }
      case _ =>
    }
  }

  /** The node at the end of a path of child positions contributes the name. */
  ghost predicate MentionsAt(n: Node, path: seq<nat>, id: string)
    decreases |path|
  {
    if path == [] then id in Own(n)
    else path[0] < |Children(n)| && MentionsAt(Children(n)[path[0]], path[1..], id)
  }

  /** The name occurs somewhere in the tree, at any depth. */
  ghost predicate Mentions(n: Node, id: string) {
    exists path :: MentionsAt(n, path, id)
  }

  ghost predicate MentionedIn(ns: seq<Node>, id: string) {
    exists i | 0 <= i < |ns| :: Mentions(ns[i], id)
  }

  lemma MentionsUnfold(n: Node, id: string)
    ensures Mentions(n, id) <==> id in Own(n) || MentionedIn(Children(n), id)
  {
    if path :| MentionsAt(n, path, id) {
      if path != [] { assert MentionsAt(Children(n)[path[0]], path[1..], id); }
    }
    if id in Own(n) { assert MentionsAt(n, [], id); }
    if i: nat :| i < |Children(n)| && Mentions(Children(n)[i], id) {
      var path :| MentionsAt(Children(n)[i], path, id);
      assert ([i] + path)[1..] == path;
      assert MentionsAt(n, [i] + path, id);
    }
  }

  lemma MentionedInBoth(ns: seq<Node>, ms: seq<Node>, id: string)
    ensures MentionedIn(ns + ms, id) <==> MentionedIn(ns, id) || MentionedIn(ms, id)
  {
    if i :| 0 <= i < |ns + ms| && Mentions((ns + ms)[i], id) {
      if i < |ns| { assert Mentions(ns[i], id); } else { assert Mentions(ms[i - |ns|], id); }
    }
    if i :| 0 <= i < |ns| && Mentions(ns[i], id) { assert Mentions((ns + ms)[i], id); }
    if i :| 0 <= i < |ms| && Mentions(ms[i], id) { assert Mentions((ns + ms)[|ns| + i], id); }
  }

  /** Having seen a node's children is having seen the node, names of its own aside. */
  lemma SeenChildren(before: seq<Node>, n: Node, id: string)
    ensures MentionedIn(before + [n], id) <==> MentionedIn(before + Children(n), id) || id in Own(n)
  {
    MentionedInBoth(before, [n], id);
    MentionedInBoth(before, Children(n), id);
    MentionsUnfold(n, id);
    if Mentions(n, id) { assert Mentions([n][0], id); }
  }
}
