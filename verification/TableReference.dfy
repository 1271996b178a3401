/**
 * Static table reachability: walkers that collect every identifier of a function body into one
 * growing set, and the worklist over functions named by those identifiers.
 */
module TableReference {
  import opened Prelude
  import opened Syntax

  /** The walkers' shared set, and the nodes it accounts for. */
  class Collector {
    var out: set<string>
    ghost var seen: seq<Node>

    ghost predicate Valid()
      reads this
    {
      forall id :: id in out <==> MentionedIn(seen, id)
    }

    constructor ()
      ensures Valid() && seen == [] && out == {}
    {
      out, seen := {}, [];
    }

    /** Everything below the node has been seen, so the node has. */
    ghost method Close(before: seq<Node>, n: Node)
      requires Valid() && seen == before + Children(n) && Own(n) == {}
      modifies this`seen
      ensures Valid() && seen == before + [n]
    {
      forall id ensures MentionedIn(before + [n], id) <==> MentionedIn(before + Children(n), id) {
        SeenChildren(before, n, id);
      }
      seen := before + [n];
    }

    /** A leaf contributes its own names. */
    method InsertLeaf(n: Node)
      requires Valid() && (n.Qualified? || n.Label?)
      modifies this
      ensures Valid() && seen == old(seen) + [n]
    {
      forall id ensures MentionedIn(seen + [n], id) <==> MentionedIn(seen, id) || id in Own(n) {
        SeenChildren(seen, n, id);
        assert seen + Children(n) == seen;
      }
      out := out + Own(n);
      seen := seen + [n];
    }

    method InsertPath(path: seq<string>)
      requires Valid()
      modifies this
      ensures Valid() && seen == old(seen) + Path(path)
    {
      for i := 0 to |path|
        invariant Valid() && seen == old(seen) + Path(path)[..i]
      {
        InsertLeaf(Qualified(path[i]));
      }
    }

    method TypeIdentifiers(ty: TypeExpr)
      requires Valid()
      modifies this
      ensures Valid() && seen == old(seen) + [TypeNode(ty)]
      decreases ty, 1
    {
      hide Valid, MentionedIn;
      match ty {
      case NamedType(path, arguments) =>
        InsertPath(path);
        TypesIdentifiers(arguments, ty);
      case OptionalType(inner) => TypeIdentifiers(inner);
      case ListType(inner) => TypeIdentifiers(inner);
      case ProductType(lhs, _, rhs) =>
        TypeIdentifiers(lhs);
        TypeIdentifiers(rhs);
      case RecordType(fields) =>
        TypeFieldsIdentifiers(fields, ty);
      case TupleType(elements) => TypesIdentifiers(elements, ty);
      case FunctionType(parameters, result) =>
        TypesIdentifiers(parameters, ty);
        TypeIdentifiers(result);
      }
      Close(old(seen), TypeNode(ty));
    }

    method TypeFieldsIdentifiers(fields: seq<TypeField>, ghost parent: TypeExpr)
      requires Valid() && forall i | 0 <= i < |fields| :: (parent decreases to fields[i])
      modifies this
      ensures Valid() && seen == old(seen) + TypeFields(fields)
      decreases parent, 0
    {
      for i := 0 to |fields|
        invariant Valid() && seen == old(seen) + TypeFields(fields)[..i]
      {
        ghost var before := seen;
        InsertLeaf(Label(fields[i].name));
        TypeIdentifiers(fields[i].fieldType);
        Close(before, TypeFieldNode(fields[i]));
      }
    }

    method TypesIdentifiers(types: seq<TypeExpr>, ghost parent: TypeExpr)
      requires Valid() && forall i | 0 <= i < |types| :: (parent decreases to types[i])
      modifies this
      ensures Valid() && seen == old(seen) + Types(types)
      decreases parent, 0
    {
      for i := 0 to |types|
        invariant Valid() && seen == old(seen) + Types(types)[..i]
      {
        TypeIdentifiers(types[i]);
      }
    }

    method PatternIdentifiers(pattern: Pattern)
      requires Valid()
      modifies this
      ensures Valid() && seen == old(seen) + [PatternNode(pattern)]
      decreases pattern, 1
    {
      hide Valid, MentionedIn;
      match pattern {
        case NamePattern(name) => InsertLeaf(Qualified(name));
        case Wildcard =>
        case LiteralPattern(_, _) =>
        case TuplePattern(elements) => PatternsIdentifiers(elements, pattern);
        case ListPattern(elements) => PatternsIdentifiers(elements, pattern);
        case RecordPattern(fields) => PatternFieldsIdentifiers(fields, pattern);
        case Constructor(path, arguments, fields) =>
          InsertPath(path);
          PatternsIdentifiers(arguments, pattern);
          PatternFieldsIdentifiers(fields, pattern);
      }
      Close(old(seen), PatternNode(pattern));
    }

    method PatternsIdentifiers(patterns: seq<Pattern>, ghost parent: Pattern)
      requires Valid() && forall i | 0 <= i < |patterns| :: (parent decreases to patterns[i])
      modifies this
      ensures Valid() && seen == old(seen) + Patterns(patterns)
      decreases parent, 0
    {
      for i := 0 to |patterns|
        invariant Valid() && seen == old(seen) + Patterns(patterns)[..i]
      {
        PatternIdentifiers(patterns[i]);
      }
    }

    method PatternFieldsIdentifiers(fields: seq<PatternField>, ghost parent: Pattern)
      requires Valid() && forall i | 0 <= i < |fields| :: (parent decreases to fields[i])
      modifies this
      ensures Valid() && seen == old(seen) + PatternFields(fields)
      decreases parent, 0
    {
      for i := 0 to |fields|
        invariant Valid() && seen == old(seen) + PatternFields(fields)[..i]
      {
        ghost var before := seen;
        InsertLeaf(Label(fields[i].name));
        if fields[i].pattern.Some? { PatternIdentifiers(fields[i].pattern.value); }
        Close(before, PatternFieldNode(fields[i]));
      }
    }

    method OptionalExprIdentifiers(e: Option<Expr>)
      requires Valid()
      modifies this
      ensures Valid() && seen == old(seen) + OptionalExpr(e)
      decreases e, 0
    {
      if e.Some? { ExprIdentifiers(e.value); }
    }

    method ExprsIdentifiers(elements: seq<Expr>, ghost parent: Expr)
      requires Valid() && forall i | 0 <= i < |elements| :: (parent decreases to elements[i])
      modifies this
      ensures Valid() && seen == old(seen) + Exprs(elements)
      decreases parent, 0
    {
      for i := 0 to |elements|
        invariant Valid() && seen == old(seen) + Exprs(elements)[..i]
      {
        ExprIdentifiers(elements[i]);
      }
    }

    method ArgumentsIdentifiers(arguments: seq<Argument>, ghost parent: Expr)
      requires Valid() && forall i | 0 <= i < |arguments| :: (parent decreases to arguments[i])
      modifies this
      ensures Valid() && seen == old(seen) + Arguments(arguments)
      decreases parent, 0
    {
      for i := 0 to |arguments|
        invariant Valid() && seen == old(seen) + Arguments(arguments)[..i]
      {
        ghost var before := seen;
        if arguments[i].name.Some? { InsertLeaf(Label(arguments[i].name.value)); }
        ExprIdentifiers(arguments[i].value);
        Close(before, ArgumentNode(arguments[i]));
      }
    }

    method RecordIdentifiers(fields: seq<RecordField>, ghost parent: Expr)
      requires Valid() && forall i | 0 <= i < |fields| :: (parent decreases to fields[i])
      modifies this
      ensures Valid() && seen == old(seen) + RecordFields(fields)
      decreases parent, 0
    {
      for i := 0 to |fields|
        invariant Valid() && seen == old(seen) + RecordFields(fields)[..i]
      {
        ghost var before := seen;
        InsertLeaf(Label(fields[i].name));
        ExprIdentifiers(fields[i].value);
        Close(before, RecordFieldNode(fields[i]));
      }
    }

    method SegmentsIdentifiers(segments: seq<StringSegment>, ghost parent: Expr)
      requires Valid() && forall i | 0 <= i < |segments| :: (parent decreases to segments[i])
      modifies this
      ensures Valid() && seen == old(seen) + StringSegments(segments)
      decreases parent, 0
    {
      for i := 0 to |segments|
        invariant Valid() && seen == old(seen) + StringSegments(segments)[..i]
      {
        ghost var before := seen;
        if segments[i].Interpolated? { ExprIdentifiers(segments[i].value); }
        Close(before, SegmentNode(segments[i]));
      }
    }

    method LambdaParameterIdentifiers(parameter: LambdaParameter)
      requires Valid()
      modifies this
      ensures Valid() && seen == old(seen) + [ParameterNode(parameter)]
    {
      PatternIdentifiers(parameter.pattern);
      if parameter.annotation.Some? { TypeIdentifiers(parameter.annotation.value); }
      Close(old(seen), ParameterNode(parameter));
    }

    method CaseArmIdentifiers(arm: CaseArm)
      requires Valid()
      modifies this
      ensures Valid() && seen == old(seen) + [ArmNode(arm)]
      decreases arm, 0
    {
      PatternIdentifiers(arm.pattern);
      OptionalExprIdentifiers(arm.guard);
      ExprIdentifiers(arm.body);
      Close(old(seen), ArmNode(arm));
    }

    method AssignmentTargetIdentifiers(target: AssignmentTarget)
      requires Valid()
      modifies this
      ensures Valid() && seen == old(seen) + [TargetNode(target)]
      decreases target, 0
    {
      match target {
        case NameTarget(name) => InsertLeaf(Qualified(name));
        case FieldTarget(base, name) =>
          AssignmentTargetIdentifiers(base);
          InsertLeaf(Qualified(name));
        case IndexTarget(base, index) =>
          AssignmentTargetIdentifiers(base);
          ExprIdentifiers(index);
      }
      Close(old(seen), TargetNode(target));
    }

    method StatementIdentifiers(statement: Statement)
      requires Valid()
      modifies this
      ensures Valid() && seen == old(seen) + [StatementNode(statement)]
      decreases statement, 0
    {
      hide Valid, MentionedIn;
      match statement {
        case Let(pattern, annotation, value) =>
          PatternIdentifiers(pattern);
          if annotation.Some? { TypeIdentifiers(annotation.value); }
          ExprIdentifiers(value);
        case Return(result) => OptionalExprIdentifiers(result);
        case Break(result) => OptionalExprIdentifiers(result);
        case Continue =>
        case Assignment(target, _, value) =>
          AssignmentTargetIdentifiers(target);
          ExprIdentifiers(value);
        case Assert(value) => ExprIdentifiers(value);
        case ExpressionStatement(value) => ExprIdentifiers(value);
        case ControlStatement(value) => ExprIdentifiers(value);
      }
      Close(old(seen), StatementNode(statement));
    }

    method TypeArgumentsIdentifiers(types: seq<TypeExpr>)
      requires Valid()
      modifies this
      ensures Valid() && seen == old(seen) + Types(types)
    {
      for i := 0 to |types|
        invariant Valid() && seen == old(seen) + Types(types)[..i]
      {
        TypeIdentifiers(types[i]);
      }
    }

    method ParametersIdentifiers(parameters: seq<LambdaParameter>)
      requires Valid()
      modifies this
      ensures Valid() && seen == old(seen) + Parameters(parameters)
    {
      for i := 0 to |parameters|
        invariant Valid() && seen == old(seen) + Parameters(parameters)[..i]
      {
        LambdaParameterIdentifiers(parameters[i]);
      }
    }

    method StatementsIdentifiers(statements: seq<Statement>, ghost parent: Expr)
      requires Valid() && forall i | 0 <= i < |statements| :: (parent decreases to statements[i])
      modifies this
      ensures Valid() && seen == old(seen) + Statements(statements)
      decreases parent, 0
    {
      for i := 0 to |statements|
        invariant Valid() && seen == old(seen) + Statements(statements)[..i]
      {
        StatementIdentifiers(statements[i]);
      }
    }

    method ArmsIdentifiers(arms: seq<CaseArm>, ghost parent: Expr)
      requires Valid() && forall i | 0 <= i < |arms| :: (parent decreases to arms[i])
      modifies this
      ensures Valid() && seen == old(seen) + Arms(arms)
      decreases parent, 0
    {
      for i := 0 to |arms|
        invariant Valid() && seen == old(seen) + Arms(arms)[..i]
      {
        CaseArmIdentifiers(arms[i]);
      }
    }

    method ControlIdentifiers(e: Expr)
      requires Valid() && e.Control?
      modifies this
      ensures Valid() && seen == old(seen) + ExprChildren(e)
      decreases e, 1
    {
      hide Valid, MentionedIn;
      if e.binding.Some? { PatternIdentifiers(e.binding.value); }
      OptionalExprIdentifiers(e.condition);
      OptionalExprIdentifiers(e.body);
      ArmsIdentifiers(e.arms, e);
      OptionalExprIdentifiers(e.alternate);
    }

    /** Calls, records, lambdas and blocks: their parts come in lists. */
    method CompoundIdentifiers(e: Expr)
      requires Valid() && (e.Call? || e.GenericCall? || e.Nominal? || e.Lambda? || e.Block?)
      modifies this
      ensures Valid() && seen == old(seen) + ExprChildren(e)
      decreases e, 1
    {
      hide Valid, MentionedIn;
      match e {
        case Call(callee, arguments) =>
          ExprIdentifiers(callee);
          ArgumentsIdentifiers(arguments, e);
        case GenericCall(callee, types, arguments) =>
          ExprIdentifiers(callee);
          TypeArgumentsIdentifiers(types);
          ArgumentsIdentifiers(arguments, e);
        case Nominal(path, fields) =>
          InsertPath(path);
          RecordIdentifiers(fields, e);
        case Lambda(parameters, inner) =>
          ParametersIdentifiers(parameters);
          ExprIdentifiers(inner);
        case Block(statements, tail) =>
          StatementsIdentifiers(statements, e);
          OptionalExprIdentifiers(tail);
      }
    }

    method ExprIdentifiers(e: Expr)
      requires Valid()
      modifies this
      ensures Valid() && seen == old(seen) + [ExprNode(e)]
      decreases e, 2
    {
      hide Valid, MentionedIn;
      match e {
        case Name(text) => InsertLeaf(Qualified(text));
        case ReplBinding(text) => InsertLeaf(Qualified(text));
        case Literal(_, _) =>
        case InterpolatedString(segments) => SegmentsIdentifiers(segments, e);
        case Unary(_, rhs) => ExprIdentifiers(rhs);
        case Binary(lhs, _, rhs) =>
          ExprIdentifiers(lhs);
          ExprIdentifiers(rhs);
        case Range(lower, _, upper) =>
          OptionalExprIdentifiers(lower);
          OptionalExprIdentifiers(upper);
        case Index(base, index) =>
          ExprIdentifiers(base);
          ExprIdentifiers(index);
        case Field(base, name) =>
          ExprIdentifiers(base);
          InsertLeaf(Qualified(name));
        case Group(inner) => ExprIdentifiers(inner);
        case Tuple(elements) => ExprsIdentifiers(elements, e);
        case List(elements) => ExprsIdentifiers(elements, e);
        case Record(fields) => RecordIdentifiers(fields, e);
        case Control(_, _, _, _, _, _) => ControlIdentifiers(e);
        case _ => CompoundIdentifiers(e);
      }
      Close(old(seen), ExprNode(e));
    }
  }

  /** Every identifier of an expression, at any depth, and nothing else. */
  method Identifiers(e: Expr) returns (ids: set<string>)
    ensures forall id :: id in ids <==> Mentions(ExprNode(e), id)
  {
    var collector := new Collector();
    collector.ExprIdentifiers(e);
    ids := collector.out;
    forall id ensures id in ids <==> Mentions(ExprNode(e), id) {
      assert collector.seen == [ExprNode(e)];
      assert MentionedIn([ExprNode(e)], id) <==> Mentions([ExprNode(e)][0], id);
    }
  }

  // ---- The functions admitted, by name ----

  /** Two layers of functions and of aliases; the local layer shadows the standard one. */
  datatype Functions = Functions(
    local: map<string, Expr>, standard: map<string, Expr>,
    localAliases: map<string, string>, standardAliases: map<string, string>)
  {
    function Get(name: string): Option<Expr> {
      if name in local then Some(local[name]) else if name in standard then Some(standard[name]) else None
    }

    function Alias(name: string): Option<string> {
      if name in localAliases then Some(localAliases[name])
      else if name in standardAliases then Some(standardAliases[name]) else None
    }

    /** The body a name denotes, directly or through one alias. */
    function Entry(name: string): Option<Expr> {
      if Get(name).Some? then Get(name)
      else if Alias(name).Some? then Get(Alias(name).value) else None
    }

    predicate Visible(name: string) {
      name in local || name in standard || name in localAliases || name in standardAliases
    }
  }

  /** Local definitions come before standard ones, definitions before aliases, and one alias is followed. */
  lemma EntryLayers(f: Functions, name: string)
    ensures name in f.local ==> f.Entry(name) == Some(f.local[name])
    ensures name !in f.local && name in f.standard ==> f.Entry(name) == Some(f.standard[name])
    ensures name !in f.local && name !in f.standard && name in f.localAliases ==>
              f.Entry(name) == f.Get(f.localAliases[name])
    ensures !f.Visible(name) ==> f.Entry(name).None?
  {
  }

  /** The text after the last separator, or all of it. */
  function FinalSegment(key: string, end: nat): string
    requires end <= |key|
  {
    if end == 0 then key
    else if SeparatorAt(key, end - 1) then key[end + 1..]
    else FinalSegment(key, end - 1)
  }

  predicate NamesFunction(key: string, id: string) {
    key == id || FinalSegment(key, |key|) == id
  }

  predicate LastSeparator(key: string, k: int) {
    SeparatorAt(key, k) && forall j | k < j < |key| :: !SeparatorAt(key, j)
  }

  /** The final segment is all that follows the last separator; without one it is the whole key. */
  lemma {:induction false} FinalSegmentExact(key: string, end: nat)
    requires end <= |key| && forall k | end <= k < |key| :: !SeparatorAt(key, k)
    ensures (exists k | 0 <= k < |key| :: LastSeparator(key, k) && FinalSegment(key, end) == key[k + 2..])
      || (FinalSegment(key, end) == key && forall k | 0 <= k < |key| :: !SeparatorAt(key, k))
  {
    if end > 0 {
      if SeparatorAt(key, end - 1) { assert LastSeparator(key, end - 1); }
      else { FinalSegmentExact(key, end - 1); }
    }
  }

  // ---- Reachability by name ----

  /** The function's body mentions a name that stands for the key. */
  ghost predicate Edge(functions: Functions, from: string, key: string) {
    functions.Visible(key) && functions.Entry(from).Some?
      && exists id :: Mentions(ExprNode(functions.Entry(from).value), id) && NamesFunction(key, id)
  }

  /** A chain of edges. */
  ghost predicate Chain(functions: Functions, names: seq<string>) {
    forall i | 0 <= i < |names| - 1 :: Edge(functions, names[i], names[i + 1])
  }

  ghost predicate Reaches(functions: Functions, entry: string, name: string) {
    exists names :: Leads(functions, names, entry, name)
  }

  ghost predicate Leads(functions: Functions, names: seq<string>, entry: string, name: string) {
    names != [] && names[0] == entry && names[|names| - 1] == name && Chain(functions, names)
  }

  ghost predicate MentionsTable(functions: Functions, name: string, tables: set<string>) {
    functions.Entry(name).Some? && exists id :: id in tables && Mentions(ExprNode(functions.Entry(name).value), id)
  }

  /** What the check means: the entry is unknown, or some function reachable from it names a table. */
  ghost predicate ReferencesTables(functions: Functions, entry: string, tables: set<string>) {
    functions.Entry(entry).None?
    || exists name :: Reaches(functions, entry, name) && MentionsTable(functions, name, tables)
  }

  lemma ReachesStep(functions: Functions, entry: string, name: string, key: string)
    requires Reaches(functions, entry, name) && Edge(functions, name, key)
    ensures Reaches(functions, entry, key)
  {
    var names :| Leads(functions, names, entry, name);
    assert Leads(functions, names + [key], entry, key);
  }

  lemma ReachesSelf(functions: Functions, entry: string)
    ensures Reaches(functions, entry, entry)
  {
    assert Leads(functions, [entry], entry, entry);
  }

  /** A set closed under edges holds everything reachable from its members. */
  lemma {:induction false} ClosedHolds(functions: Functions, names: seq<string>, visited: set<string>)
    requires names != [] && names[0] in visited && Chain(functions, names)
    requires forall from, key | from in visited && Edge(functions, from, key) :: key in visited
    ensures names[|names| - 1] in visited
  {
    hide Edge;
    if |names| > 1 {
      assert Edge(functions, names[0], names[0 + 1]);
      assert names[1..][|names[1..]| - 1] == names[|names| - 1];
      forall i | 0 <= i < |names[1..]| - 1 ensures Edge(functions, names[1..][i], names[1..][i + 1]) {
        assert Edge(functions, names[i + 1], names[i + 1 + 1]);
      }
      ClosedHolds(functions, names[1..], visited);
    }
  }

  /** The names a set of identifiers stands for are those with an edge. */
  method Named(ids: set<string>, key: string) returns (r: bool)
    ensures r <==> exists id :: id in ids && NamesFunction(key, id)
  {
    r := key in ids || FinalSegment(key, |key|) in ids;
  }

  ghost predicate Closed(functions: Functions, visited: set<string>, pending: seq<string>) {
    forall from, key | from in visited && Edge(functions, from, key) :: key in visited || key in pending
  }

  ghost predicate Lists(names: seq<string>, functions: Functions) {
    forall name :: name in names <==> functions.Visible(name)
  }

  /** Every visible name the identifiers stand for, unless visited, joins the pending ones. */
  method PushNamed(
      visible: seq<string>, visited: set<string>, ids: set<string>, pending: seq<string>)
    returns (r: seq<string>)
    ensures forall key :: key in r <==>
      key in pending || (key in visible && key !in visited && exists id :: id in ids && NamesFunction(key, id))
  {
    r := pending;
    for i := 0 to |visible|
      invariant forall key :: key in r <==>
        key in pending || (key in visible[..i] && key !in visited && exists id :: id in ids && NamesFunction(key, id))
    {
      var named := Named(ids, visible[i]);
      if visible[i] !in visited && named { r := r + [visible[i]]; }
    }
  }

  /**
   * What the worklist knows: all it met is reachable, all it visited names no table and is closed up to
   * the pending.
   */
  ghost predicate Progress(
      functions: Functions, entry: string, tables: set<string>, visited: set<string>, pending: seq<string>)
  {
    && (entry in visited || entry in pending)
    && (forall name | name in visited || name in pending :: Reaches(functions, entry, name))
    && (forall name | name in visited :: !MentionsTable(functions, name, tables))
    && Closed(functions, visited, pending)
  }

  lemma SkipKeeps(
      functions: Functions, entry: string, tables: set<string>, visited: set<string>, pending: seq<string>,
      name: string)
    requires Progress(functions, entry, tables, visited, pending + [name]) && name in visited
    ensures Progress(functions, entry, tables, visited, pending)
  {
    hide Edge, Reaches, MentionsTable;
  }

  /** A name without a body has no edges. */
  lemma DeadKeeps(
      functions: Functions, entry: string, tables: set<string>, visited: set<string>, pending: seq<string>,
      name: string)
    requires Progress(functions, entry, tables, visited, pending + [name]) && functions.Entry(name).None?
    ensures Progress(functions, entry, tables, visited + {name}, pending)
  {
    hide Reaches;
    assert forall key :: !Edge(functions, name, key);
  }

  lemma ExpandKeeps(
      functions: Functions, entry: string, tables: set<string>, visited: set<string>, pending: seq<string>,
      name: string, more: seq<string>)
    requires Progress(functions, entry, tables, visited, pending + [name]) && !MentionsTable(functions, name, tables)
    requires forall key :: key in more <==> key in pending || (key !in visited + {name} && Edge(functions, name, key))
    ensures Progress(functions, entry, tables, visited + {name}, more)
  {
    hide Edge, Reaches, MentionsTable;
    forall key | key in more ensures Reaches(functions, entry, key) {
      assert name in pending + [name];
      if key in pending { assert key in pending + [name]; }
      else { ReachesStep(functions, entry, name, key); }
    }
    assert forall key | key in pending + [name] :: key in pending || key == name;
  }

  /** The edges of a function, from the identifiers collected. */
  lemma EdgeExact(functions: Functions, name: string, ids: set<string>, key: string)
    requires functions.Entry(name).Some?
    requires forall id :: id in ids <==> Mentions(ExprNode(functions.Entry(name).value), id)
    ensures Edge(functions, name, key) <==> functions.Visible(key) && exists id :: id in ids && NamesFunction(key, id)
  {
  }

  /** One function of the worklist: a table found, or its named functions pending. */
  method Expand(
      functions: Functions, visible: seq<string>, tables: set<string>, visited: set<string>, pending: seq<string>,
      name: string)
    returns (found: bool, more: seq<string>)
    requires Lists(visible, functions) && functions.Entry(name).Some?
    ensures found <==> MentionsTable(functions, name, tables)
    ensures forall key :: key in more <==> key in pending || (key !in visited && Edge(functions, name, key))
  {
    var ids := Identifiers(functions.Entry(name).value);
    hide Edge, NamesFunction, Mentions, Functions.Visible;
    found := ids * tables != {};
    assert found ==> exists id :: id in ids && id in tables by {
      if found { var id :| id in ids * tables; }
    }
    assert forall id | id in ids && id in tables :: id in ids * tables;
    more := PushNamed(visible, visited, ids, pending);
    forall key ensures key in more <==> key in pending || (key !in visited && Edge(functions, name, key)) {
      EdgeExact(functions, name, ids, key);
    }
  }

  /** The worklist: answers yes exactly when the entry is unknown or a table is reachable from it. */
  method EntryReferencesTables(
      functions: Functions, visible: seq<string>, entry: string, tables: set<string>)
    returns (r: bool)
    requires Lists(visible, functions)
    ensures r <==> ReferencesTables(functions, entry, tables)
  {
    hide Edge, Reaches, MentionsTable;
    if functions.Entry(entry).None? { return true; }
    ReachesSelf(functions, entry);
    var pending, visited: set<string> := [entry], {};
    ghost var all := (set name | name in visible) + {entry};
    while pending != []
      invariant Progress(functions, entry, tables, visited, pending)
      invariant forall name | name in pending :: name in all
      decreases |all - visited|, |pending|
    {
      var name := pending[|pending| - 1];
      ghost var waiting := pending;
      pending := pending[..|pending| - 1];
      assert waiting == pending + [name];
      if name in visited {
        SkipKeeps(functions, entry, tables, visited, pending, name);
      } else {
        Shrinks(all, visited, name);
        if functions.Entry(name).None? {
          DeadKeeps(functions, entry, tables, visited, pending, name);
          visited := visited + {name};
        } else {
          var found, more := Expand(functions, visible, tables, visited + {name}, pending, name);
          if found { return true; }
          ExpandKeeps(functions, entry, tables, visited, pending, name, more);
          forall key | key in more ensures key in all { EdgeVisible(functions, name, key); }
          pending, visited := more, visited + {name};
        }
      }
    }
    forall name | Reaches(functions, entry, name) ensures !MentionsTable(functions, name, tables) {
      AllVisited(functions, entry, name, visited);
    }
    return false;
  }

  lemma EdgeVisible(functions: Functions, name: string, key: string)
    ensures Edge(functions, name, key) ==> functions.Visible(key)
  {
  }

  lemma Shrinks(all: set<string>, visited: set<string>, name: string)
    requires name in all && name !in visited
    ensures |all - (visited + {name})| < |all - visited|
  {
    assert all - visited == (all - (visited + {name})) + {name};
  }

  lemma AllVisited(functions: Functions, entry: string, name: string, visited: set<string>)
    requires entry in visited && Closed(functions, visited, []) && Reaches(functions, entry, name)
    ensures name in visited
  {
    hide Edge;
    var names :| Leads(functions, names, entry, name);
    ClosedHolds(functions, names, visited);
  }
}
