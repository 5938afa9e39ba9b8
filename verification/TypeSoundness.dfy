/**
 What type constraints mean as sets of values, and when the types of expressions hold of their values.
 The types of arrays, of elements taken from a hint, of some trigonometric operands, and of operands that the
 occurs check skips do not; for the other expressions they do, exactly if arithmetic keeps to the types of its
 operands.
 */
module TypeSoundness {
  import opened Options
  import opened BsonScalars
  import opened ScalarValues
  import SchemaTypes
  import opened TypeConstraints
  import opened ConstraintGraphs
  import opened PipelineTypeContexts
  import opened ExpressionTyping
  import opened ExpressionValues
  import AggregationExpressions

  // ----- the meaning of constraints -----

  /** The values of type variables and of object types. */
  datatype Assignment = Assignment(variables: (TypeVariable, Value) -> bool, objects: (string, Value) -> bool)

  ghost predicate Means(a: Assignment, t: TypeConstraint, v: Value)
    decreases t
  {
    match t
    case ExtendedJSON => true
    case Scalar(s) => v.Atom? && Inhabits(v.leaf, s)
    case Object(name) => a.objects(name, v)
    case ArrayOf(element) => v.List? && forall i :: 0 <= i < |v.items| ==> Means(a, element, v.items[i])
    case Predicate(_) => false
    case Union(types) => exists u :: u in types && Means(a, u, v)
    case OneOf(types) => exists u :: u in types && Means(a, u, v)
    case Variable(x) => a.variables(x, v)
    case ElementOf(container) => exists l: Value :: l.List? && v in l.items && Means(a, container, l)
    case FieldOf(target, path) => exists d: Value :: Means(a, target, d) && v == At(d, path)
    case WithFieldOverrides(_, target, fields) =>
      && v.Record?
      && (exists d: Value :: d.Record? && Means(a, target, d) && Overridden(fields, d.fields, v.fields))
      && (forall f :: f in fields && fields[f].Replaced? && f in v.fields ==>
            Means(a, fields[f].constraint, v.fields[f]))
  }

  /** The fields of one document are those of the other but for the overrides. */
  predicate Overridden(overrides: map<string, Override>, before: map<string, Value>, after: map<string, Value>) {
    && (forall f :: f in before && f !in overrides ==> f in after && after[f] == before[f])
    && (forall f :: f in after && f !in overrides ==> f in before)
    && (forall f :: f in overrides ==> (f in after <==> overrides[f].Replaced?))
  }

  /**
   A type variable for what is used as an operand or a document holds all values of its constraints; those of
   which only one type may be meant, and those on parameters, hold all values of the variable.
   */
  ghost predicate Bounds(a: Assignment, x: TypeVariable, c: TypeConstraint) {
    if x.variance.Contravariant? || (x.variance.Invariant? && c.OneOf?) then
      forall v :: a.variables(x, v) ==> Means(a, c, v)
    else forall v :: Means(a, c, v) ==> a.variables(x, v)
  }

  ghost predicate RecordOf(a: Assignment, fields: map<string, TypeConstraint>, v: Value) {
    v.Record? && v.fields.Keys == fields.Keys && forall f :: f in fields ==> Means(a, fields[f], v.fields[f])
  }

  /** The assignment solves the constraints of the state. */
  ghost predicate Solves(a: Assignment, s: ContextState) {
    && (forall x, c :: x in s.graph.variables && c in s.graph.variables[x] ==> Bounds(a, x, c))
    && (forall name, v :: name in s.graph.objects ==> (a.objects(name, v) <==> RecordOf(a, s.graph.objects[name], v)))
  }

  /** Parameters and the input document have the values of their type variables. */
  ghost predicate Fits(a: Assignment, s: ContextState, env: Environment) {
    && (forall p :: p in s.parameters ==> a.variables(s.parameters[p], env.parameters(p)))
    && (s.input.Some? ==> a.variables(s.input.value, env.input))
  }

  // ----- constraints made of others -----

  lemma MeansUnion(a: Assignment, t: TypeConstraint, u: TypeConstraint, v: Value)
    ensures Means(a, UnionOf(t, u), v) <==> Means(a, t, v) || Means(a, u, v)
  {
    MeansSome(a, t, v);
    MeansSome(a, u, v);
    MeansSome(a, UnionOf(t, u), v);
    assert Branches(UnionOf(t, u)) == Branches(t) + Branches(u);
  }

  function Branches(t: TypeConstraint): set<TypeConstraint> {
    if t.Union? then t.types else {t}
  }

  lemma MeansSome(a: Assignment, t: TypeConstraint, v: Value)
    ensures Means(a, t, v) <==> exists u :: u in Branches(t) && Means(a, u, v)
  {
    assert !t.Union? ==> t in Branches(t);
  }

  lemma MeansNull(a: Assignment, v: Value)
    ensures Means(a, NULL_TYPE, v) <==> v == NULL
  {
  }

  lemma MeansNullable(a: Assignment, t: TypeConstraint, v: Value)
    ensures Means(a, MakeNullable(t), v) <==> v == NULL || Means(a, t, v)
  {
    MeansNull(a, v);
    if !t.ExtendedJSON? && t != NULL_TYPE {
      MeansUnion(a, t, NULL_TYPE, v);
    }
  }

  /** The hint of numeric operators means the numbers. */
  lemma MeansNumeric(a: Assignment, v: Value)
    ensures Means(a, NUMERIC_TYPE, v) <==> v.Atom? && Number(v.leaf)
  {
    if v.Atom? {
      InhabitsExact(v.leaf, ScalarOf(v.leaf));
      if Number(v.leaf) {
        assert Scalar(ScalarOf(v.leaf)) in NUMERIC_TYPE.types;
      }
    }
  }

  /** The hint of order comparisons means all scalars but regular expressions and code. */
  lemma MeansComparable(a: Assignment, v: Value)
    ensures Means(a, COMPARABLE_TYPE, v)
       <==> v.Atom? && !v.leaf.RegularExpression? && !v.leaf.JavaScriptCode? && !v.leaf.JavaScriptCodeWithScope?
  {
    if v.Atom? {
      InhabitsExact(v.leaf, ScalarOf(v.leaf));
      if !v.leaf.RegularExpression? && !v.leaf.JavaScriptCode? && !v.leaf.JavaScriptCodeWithScope? {
        assert Scalar(ScalarOf(v.leaf)) in COMPARABLE_TYPE.types;
      }
    }
  }

  /** The value has the annotated type. */
  ghost predicate Annotated(a: Assignment, t: SchemaTypes.Type, v: Value)
    decreases t
  {
    match t
    case ExtendedJSON => true
    case Scalar(s) => v.Atom? && Inhabits(v.leaf, s)
    case Object(name) => a.objects(name, v)
    case ArrayOf(element) => v.List? && forall i :: 0 <= i < |v.items| ==> Annotated(a, element, v.items[i])
    case Nullable(inner) => v == NULL || Annotated(a, inner, v)
    case Predicate(_) => false
  }

  lemma {:induction false} AnnotationMeans(a: Assignment, t: SchemaTypes.Type, v: Value)
    ensures Means(a, FromType(t), v) <==> Annotated(a, t, v)
    decreases t
  {
    match t
    case ArrayOf(element) =>
      if v.List? {
        forall i | 0 <= i < |v.items|
          ensures Means(a, FromType(element), v.items[i]) <==> Annotated(a, element, v.items[i])
        {
          AnnotationMeans(a, element, v.items[i]);
        }
      }
    case Nullable(inner) =>
      AnnotationMeans(a, inner, v);
      MeansNullable(a, FromType(inner), v);
    case _ =>
  }

  // ----- operators by name -----

  lemma OperatorsOfOne(fields: seq<ExpressionField>)
    requires |fields| == 1 && NamesOperator(fields[0].name)
    ensures Operators(fields) == [0]
  {
    assert fields[..0] == [];
  }

  lemma NoOperators(fields: seq<ExpressionField>)
    requires forall i :: 0 <= i < |fields| ==> !NamesOperator(fields[i].name)
    ensures Operators(fields) == []
  {
    forall i | 0 <= i < |fields| ensures !IsOperator(fields[i].name) {
    }
  }

  lemma KindsByName(op: string)
    ensures op == "$abs" ==> KindOf(op).Absolute?
    ensures op in TRIGONOMETRIC ==> KindOf(op).Trigonometric?
    ensures op in ARITHMETIC ==> KindOf(op).Arithmetic?
    ensures op in CONNECTIVE ==> KindOf(op).Logical?
    ensures op == "$not" ==> KindOf(op).Negation?
    ensures op in EQUALITY ==> KindOf(op).Equality?
    ensures op in ORDER ==> KindOf(op).Order?
    ensures op in QUANTIFIER ==> KindOf(op).Quantifying?
    ensures op == "$arrayElemAt" ==> KindOf(op).ElementAt?
    ensures op == "$split" ==> KindOf(op).Split?
  {
  }

  // ----- what is covered -----

  /** The value is one of the hint, or null. */
  ghost predicate Bears(a: Assignment, hint: Option<TypeConstraint>, v: Value) {
    hint.Some? ==> v == NULL || Means(a, hint.value, v)
  }

  function OrNumeric(hint: Option<TypeConstraint>): Option<TypeConstraint> {
    if hint.Some? then hint else Some(NUMERIC_TYPE)
  }

  /** A parameter, or its absolute value: the hint becomes a constraint on the parameter. */
  predicate KeepsHint(e: Expression) {
    match e
    case Text(reference) => reference.NativeQueryVariable?
    case Document(fields) => |fields| == 1 && fields[0].name == "$abs" && KeepsHint(fields[0].value)
    case _ => false
  }

  /** Operands of this type that are decimals or null have a trigonometric type that says so. */
  ghost predicate TrigonometryKept(a: Assignment, u: TypeConstraint) {
    || u == Scalar(Decimal)
    || (u.Union? && u.types - {NULL_TYPE} == {Scalar(Decimal)})
    || ((Means(a, u, NULL) ==> u.Union?) && !Means(a, u, Atom(Decimal128)))
  }

  /**
   The expression is none of those whose types fail: its value, as far as that depends on them, comes from no
   array expression, no undefined value, no array element with a hint, which the value is not `certain` to
   bear, no trigonometric operand with hidden decimals or nulls, no null text that is split, and
   no operand of arithmetic, other than a parameter, whose type leads to the type variable of the operands.
   */
  ghost predicate Covered(s: ContextState, a: Assignment, hint: Option<TypeConstraint>, e: Expression,
                          t: TypeConstraint, certain: bool)
    decreases e, 1
  {
    match e
    case Leaf(leaf) => leaf != UndefinedValue
    case Text(_) => true
    case Array(_) => false
    case Document(fields) =>
      if |fields| == 1 && NamesOperator(fields[0].name) then
        CoveredOperator(s, a, hint, fields[0].name, fields[0].value, t, certain)
      else CoveredFields(s, a, e, t)
  }

  ghost predicate CoveredFields(s: ContextState, a: Assignment, e: Expression, t: TypeConstraint)
    requires e.Document?
    decreases e, 0
  {
    t.Object? && t.name in s.graph.objects ==>
      forall i :: 0 <= i < |e.fields| && e.fields[i].name in s.graph.objects[t.name] ==>
        Covered(s, a, None, e.fields[i].value, s.graph.objects[t.name][e.fields[i].name], true)
  }

  ghost predicate CoveredArgument(s: ContextState, a: Assignment, hint: Option<TypeConstraint>, operand: Expression,
                                  t: TypeConstraint, certain: bool)
    decreases operand, 2
  {
    if operand.Array? then
      |operand.elements| == 1 ==>
        forall u :: Typed(s, ElementHint(hint), operand.elements[0], u) ==>
          Covered(s, a, ElementHint(hint), operand.elements[0], u, false)
    else Covered(s, a, hint, operand, t, certain)
  }

  ghost predicate CoveredOperator(s: ContextState, a: Assignment, hint: Option<TypeConstraint>, op: string,
                                  operand: Expression, t: TypeConstraint, certain: bool)
    decreases operand, 4
  {
    if op == "$abs" then CoveredArgument(s, a, OrNumeric(hint), operand, t, certain || hint.None?)
    else if op in TRIGONOMETRIC then CoveredAngle(s, a, operand)
    else if op in ARITHMETIC then
      operand.Array? ==> forall i :: 0 <= i < |operand.elements| ==> CoveredOperand(s, a, operand.elements[i], t)
    else if op == "$arrayElemAt" then
      operand.Array? && |operand.elements| == 2 ==> CoveredContainer(s, a, hint, operand.elements[0], certain)
    else if op == "$split" then
      operand.Array? ==> forall i :: 0 <= i < |operand.elements| ==> CoveredText(s, a, operand.elements[i])
    else true
  }

  ghost predicate CoveredAngle(s: ContextState, a: Assignment, operand: Expression)
    decreases operand, 3
  {
    forall u :: Typed(s, Some(NUMERIC_TYPE), operand, u) ==>
      CoveredArgument(s, a, Some(NUMERIC_TYPE), operand, u, true) && TrigonometryKept(a, u)
  }

  ghost predicate CoveredOperand(s: ContextState, a: Assignment, operand: Expression, t: TypeConstraint)
    decreases operand, 2
  {
    KeepsHint(operand) || forall u :: Typed(s, Some(t), operand, u) ==>
      (t.Variable? ==> !LeadsTo(s.graph, u, t.variable)) && Covered(s, a, Some(t), operand, u, false)
  }

  ghost predicate CoveredContainer(s: ContextState, a: Assignment, hint: Option<TypeConstraint>, list: Expression,
                                   certain: bool)
    decreases list, 2
  {
    if hint.Some? then certain || KeepsHint(list)
    else forall u :: Typed(s, None, list, u) ==> Covered(s, a, None, list, u, true)
  }

  ghost predicate CoveredText(s: ContextState, a: Assignment, text: Expression)
    decreases text, 2
  {
    forall u :: Typed(s, Some(STRING_TYPE), text, u) ==>
      Covered(s, a, Some(STRING_TYPE), text, u, true) && !Means(a, u, NULL)
  }

  /** Arithmetic on two numbers yields a number of the type of one of them. */
  ghost predicate KeepsTypes(ar: Arithmetic) {
    forall op, x, y, z :: op in ARITHMETIC && Number(x) && Number(y) && ar(op, x, y, z) ==> z == x || z == y
  }

  /** The state is solved by the assignment, and the environment fits it. */
  ghost predicate Solution(s: ContextState, a: Assignment, env: Environment) {
    Registered(s) && Solves(a, s) && Fits(a, s, env)
  }

  // ----- soundness of each operator -----

  predicate IsParameter(e: Expression, name: string) {
    e.Text? && e.reference.NativeQueryVariable? && e.reference.name == name
  }

  /** The hint for a parameter is a constraint on it. */
  lemma ParameterHint(s: ContextState, a: Assignment, env: Environment, hint: TypeConstraint, e: Expression,
                      name: string, t: TypeConstraint)
    requires Solution(s, a, env) && IsParameter(e, name) && Typed(s, Some(hint), e, t)
    ensures Means(a, hint, env.parameters(name))
  {
    assert ParameterConstraints(Some(hint), e.reference.annotation)[0] == hint;
    assert HasConstraint(s, name, hint);
    assert Bounds(a, s.parameters[name], hint);
  }

  lemma AbsoluteTyped(ar: Arithmetic, env: Environment, s: ContextState, hint: TypeConstraint,
                      fields: seq<ExpressionField>, t: TypeConstraint, v: Value)
    requires |fields| == 1 && fields[0].name == "$abs"
    requires Typed(s, Some(hint), Document(fields), t) && Evaluates(ar, env, Document(fields), v)
    ensures Typed(s, Some(hint), fields[0].value, t) && EvaluatesArgument(ar, env, fields[0].value, v)
  {
    OperatorsOfOne(fields);
    KindsByName("$abs");
  }

  lemma {:induction false} HintKept(ar: Arithmetic, env: Environment, s: ContextState, a: Assignment,
                                    hint: TypeConstraint, e: Expression, t: TypeConstraint, v: Value)
    requires Solution(s, a, env) && KeepsHint(e)
    requires Typed(s, Some(hint), e, t) && Evaluates(ar, env, e, v)
    ensures Means(a, hint, v)
    decreases e
  {
    match e
    case Text(NativeQueryVariable(name, _)) => ParameterHint(s, a, env, hint, e, name, t);
    case Document(fields) =>
      AbsoluteTyped(ar, env, s, hint, fields, t, v);
      HintKept(ar, env, s, a, hint, fields[0].value, t, v);
  }

  /** What is inferred for a trigonometric operator holds exactly of operands whose decimals and nulls show. */
  lemma TrigonometryExact(a: Assignment, u: TypeConstraint)
    ensures (forall x, v :: Means(a, u, x) && Trigonometry(x, v) ==> Means(a, TrigType(u), v))
       <==> TrigonometryKept(a, u)
  {
    if TrigonometryKept(a, u) {
      forall x, v | Means(a, u, x) && Trigonometry(x, v) ensures Means(a, TrigType(u), v) {
        TrigonometryStep(a, u, x, v);
      }
    } else {
      TrigonometryFails(a, u);
    }
  }

  function TrigCore(u: TypeConstraint): TypeConstraint {
    if u.Union? then if u.types - {NULL_TYPE} == {Scalar(Decimal)} then Scalar(Decimal) else Scalar(Double)
    else if u == Scalar(Decimal) then u
    else Scalar(Double)
  }

  lemma MeansTrig(a: Assignment, u: TypeConstraint, v: Value)
    ensures Means(a, TrigType(u), v) <==> Means(a, TrigCore(u), v) || (u.Union? && v == NULL)
  {
    MeansUnion(a, TrigCore(u), NULL_TYPE, v);
    MeansNull(a, v);
  }

  lemma TrigonometryStep(a: Assignment, u: TypeConstraint, x: Value, v: Value)
    requires TrigonometryKept(a, u) && Means(a, u, x) && Trigonometry(x, v)
    ensures Means(a, TrigType(u), v)
  {
    MeansTrig(a, u, v);
    if u.Union? && u.types - {NULL_TYPE} == {Scalar(Decimal)} {
      var w :| w in u.types && Means(a, w, x);
      assert w in u.types - {NULL_TYPE} || w == NULL_TYPE;
      MeansNull(a, x);
    }
  }

  lemma TrigonometryFails(a: Assignment, u: TypeConstraint)
    requires !TrigonometryKept(a, u)
    ensures exists x, v :: Means(a, u, x) && Trigonometry(x, v) && !Means(a, TrigType(u), v)
  {
    var x := if Means(a, u, NULL) && !u.Union? then NULL else Atom(Decimal128);
    MeansTrig(a, u, x);
    assert Means(a, u, x) && Trigonometry(x, x);
  }

  lemma {:induction false} NoOneOf(s: ContextState, hint: Option<TypeConstraint>, e: Expression, t: TypeConstraint)
    requires Typed(s, hint, e, t)
    ensures !t.OneOf?
    decreases e
  {
    if e.Document? && Operators(e.fields) != [] {
      var field := e.fields[Operators(e.fields)[0]];
      if KindOf(field.name).Absolute? {
        NoOneOf(s, OrNumeric(hint), field.value, t);
      } else {
        NoOneOfResult(s, hint, KindOf(field.name), field.value, t);
      }
    }
  }

  lemma NoOneOfResult(s: ContextState, hint: Option<TypeConstraint>, kind: OperatorKind, operand: Expression,
                      t: TypeConstraint)
    requires TypedOperator(s, hint, kind, operand, t) && !kind.Absolute?
    ensures !t.OneOf?
  {
  }

  lemma OperandInVariable(ar: Arithmetic, env: Environment, s: ContextState, a: Assignment, operand: Expression,
                          t: TypeConstraint, ts: seq<TypeConstraint>, i: nat, v: Value)
    requires Solution(s, a, env) && operand.Array? && i < |operand.elements|
    requires t.Variable? && t.variable.variance.Invariant? && t.variable in s.graph.variables
    requires TypedAll(s, Some(t), operand, ts) && Unites(s, Some(NUMERIC_TYPE), ts, t.variable)
    requires Evaluates(ar, env, operand.elements[i], v)
    requires KeepsHint(operand.elements[i]) || (!LeadsTo(s.graph, ts[i], t.variable) && Means(a, ts[i], v))
    ensures a.variables(t.variable, v) && v.Atom? && Number(v.leaf)
  {
    if KeepsHint(operand.elements[i]) {
      HintKept(ar, env, s, a, t, operand.elements[i], ts[i], v);
    } else {
      NoOneOf(s, Some(t), operand.elements[i], ts[i]);
      assert ts[i] in ts;
      assert Bounds(a, t.variable, ts[i]);
    }
    assert Bounds(a, t.variable, NUMERIC_TYPE);
    MeansNumeric(a, v);
  }

  lemma ElementStep(a: Assignment, hint: Option<TypeConstraint>, u: TypeConstraint, list: Value, index: Value, v: Value)
    requires ElementOrNull(list, index, v)
    requires hint.None? ==> Means(a, u, list)
    requires Bears(a, hint, v)
    ensures Means(a, ElementAtType(hint, u), v)
  {
    MeansNullable(a, if hint.Some? then hint.value else ElementOf(u), v);
  }

  // ----- soundness -----

  /**
   Type soundness. The value of an expression has the inferred type, if the expression is covered,
   arithmetic keeps to the types of its operands, and the value bears the hint where that is certain.
   */
  lemma {:induction false} TypeSound(ar: Arithmetic, env: Environment, s: ContextState, a: Assignment,
                                     hint: Option<TypeConstraint>, e: Expression, t: TypeConstraint, v: Value,
                                     certain: bool)
    requires KeepsTypes(ar) && Solution(s, a, env)
    requires Typed(s, hint, e, t) && Covered(s, a, hint, e, t, certain)
    requires Evaluates(ar, env, e, v) && (certain ==> Bears(a, hint, v))
    ensures Means(a, t, v)
    decreases e, 1
  {
    match e
    case Leaf(leaf) => InhabitsExact(leaf, LeafType(leaf).scalar);
    case Text(_) =>
    case Document(fields) =>
      if |fields| == 1 && NamesOperator(fields[0].name) {
        OperatorsOfOne(fields);
        OperatorSound(ar, env, s, a, hint, fields[0].name, fields[0].value, t, v, certain);
      } else {
        NoOperators(fields);
        FieldsSound(ar, env, s, a, e, t, v);
      }
  }

  lemma {:induction false} FieldsSound(ar: Arithmetic, env: Environment, s: ContextState, a: Assignment, e: Expression,
                                       t: TypeConstraint, v: Value)
    requires KeepsTypes(ar) && Solution(s, a, env)
    requires e.Document? && TypedDocument(s, e, t) && CoveredFields(s, a, e, t) && EvaluatesFields(ar, env, e, v)
    ensures Means(a, t, v)
    decreases e, 0
  {
    var types := s.graph.objects[t.name];
    forall f | f in types ensures Means(a, types[f], v.fields[f]) {
      var i :| 0 <= i < |e.fields| && e.fields[i].name == f;
      TypeSound(ar, env, s, a, None, e.fields[i].value, types[f], v.fields[f], true);
    }
    assert RecordOf(a, types, v);
  }

  lemma {:induction false} ArgumentSound(ar: Arithmetic, env: Environment, s: ContextState, a: Assignment,
                                         hint: Option<TypeConstraint>, operand: Expression, t: TypeConstraint,
                                         v: Value, certain: bool)
    requires KeepsTypes(ar) && Solution(s, a, env)
    requires Typed(s, hint, operand, t) && CoveredArgument(s, a, hint, operand, t, certain)
    requires EvaluatesArgument(ar, env, operand, v) && (certain ==> Bears(a, hint, v))
    ensures Means(a, t, v)
    decreases operand, 2
  {
    if operand.Array? {
      var ts :| TypedAll(s, ElementHint(hint), operand, ts) && t == Union(set i | 0 <= i < |ts| :: ts[i]);
      assert t == Union({ts[0]});
      TypeSound(ar, env, s, a, ElementHint(hint), operand.elements[0], ts[0], v, false);
    } else {
      TypeSound(ar, env, s, a, hint, operand, t, v, certain);
    }
  }

  lemma {:induction false} OperatorSound(ar: Arithmetic, env: Environment, s: ContextState, a: Assignment,
                                         hint: Option<TypeConstraint>, op: string, operand: Expression,
                                         t: TypeConstraint, v: Value, certain: bool)
    requires KeepsTypes(ar) && Solution(s, a, env)
    requires TypedOperator(s, hint, KindOf(op), operand, t) && CoveredOperator(s, a, hint, op, operand, t, certain)
    requires EvaluatesOperator(ar, env, op, operand, v) && (certain ==> Bears(a, hint, v))
    ensures Means(a, t, v)
    decreases operand, 4
  {
    KindsByName(op);
    if op == "$abs" {
      MeansNumeric(a, v);
      ArgumentSound(ar, env, s, a, OrNumeric(hint), operand, t, v, certain || hint.None?);
    } else if op in TRIGONOMETRIC {
      var u :| Typed(s, Some(NUMERIC_TYPE), operand, u) && t == TrigType(u);
      var x :| EvaluatesArgument(ar, env, operand, x) && Trigonometry(x, v);
      AngleSound(ar, env, s, a, operand, u, x, v);
    } else if op in ARITHMETIC {
      var x, y :| EvaluatesPair(ar, env, operand, x, y) && Calculation(ar, op, x, y, v);
      OperandsSound(ar, env, s, a, operand, t, x, y);
    } else if op == "$arrayElemAt" {
      var x, y :| EvaluatesPair(ar, env, operand, x, y) && ElementOrNull(x, y, v);
      ElementSound(ar, env, s, a, hint, operand, t, x, y, v, certain);
    } else if op == "$split" {
      var x, y :| EvaluatesPair(ar, env, operand, x, y) && Splitting(x, y, v);
      SplitSound(ar, env, s, a, operand, t, x, y, v);
    } else {
      assert v == BOOLEAN && t == BOOL_TYPE;
    }
  }

  lemma {:induction false} AngleSound(ar: Arithmetic, env: Environment, s: ContextState, a: Assignment,
                                      operand: Expression, u: TypeConstraint, x: Value, v: Value)
    requires KeepsTypes(ar) && Solution(s, a, env)
    requires Typed(s, Some(NUMERIC_TYPE), operand, u) && CoveredAngle(s, a, operand)
    requires EvaluatesArgument(ar, env, operand, x) && Trigonometry(x, v)
    ensures Means(a, TrigType(u), v)
    decreases operand, 3
  {
    MeansNumeric(a, x);
    ArgumentSound(ar, env, s, a, Some(NUMERIC_TYPE), operand, u, x, true);
    TrigonometryStep(a, u, x, v);
  }

  lemma {:induction false} OperandsSound(ar: Arithmetic, env: Environment, s: ContextState, a: Assignment,
                                         operand: Expression, t: TypeConstraint, x: Value, y: Value)
    requires KeepsTypes(ar) && Solution(s, a, env) && TypedHomogeneous(s, Some(NUMERIC_TYPE), operand, t)
    requires forall i :: 0 <= i < |operand.elements| ==> CoveredOperand(s, a, operand.elements[i], t)
    requires EvaluatesPair(ar, env, operand, x, y)
    ensures forall v :: v == x || v == y ==> a.variables(t.variable, v) && v.Atom? && Number(v.leaf)
    decreases operand, 2, 1
  {
    var ts :| TypedAll(s, Some(t), operand, ts) && Unites(s, Some(NUMERIC_TYPE), ts, t.variable);
    OperandSound(ar, env, s, a, operand.elements[0], t, ts[0], x);
    OperandSound(ar, env, s, a, operand.elements[1], t, ts[1], y);
    OperandInVariable(ar, env, s, a, operand, t, ts, 0, x);
    OperandInVariable(ar, env, s, a, operand, t, ts, 1, y);
  }

  lemma {:induction false} OperandSound(ar: Arithmetic, env: Environment, s: ContextState, a: Assignment,
                                        operand: Expression, t: TypeConstraint, u: TypeConstraint, v: Value)
    requires KeepsTypes(ar) && Solution(s, a, env) && t.Variable?
    requires Typed(s, Some(t), operand, u) && CoveredOperand(s, a, operand, t) && Evaluates(ar, env, operand, v)
    ensures KeepsHint(operand) || (!LeadsTo(s.graph, u, t.variable) && Means(a, u, v))
    decreases operand, 2
  {
    if !KeepsHint(operand) {
      TypeSound(ar, env, s, a, Some(t), operand, u, v, false);
    }
  }

  lemma {:induction false} ElementSound(ar: Arithmetic, env: Environment, s: ContextState, a: Assignment,
                                        hint: Option<TypeConstraint>, operand: Expression, t: TypeConstraint,
                                        x: Value, y: Value, v: Value, certain: bool)
    requires KeepsTypes(ar) && Solution(s, a, env)
    requires IsPair(operand) && TypedElementAt(s, hint, operand, t)
    requires CoveredContainer(s, a, hint, operand.elements[0], certain)
    requires EvaluatesPair(ar, env, operand, x, y) && ElementOrNull(x, y, v) && (certain ==> Bears(a, hint, v))
    ensures Means(a, t, v)
    decreases operand, 2, 1
  {
    var u, w :| Typed(s, ArrayHint(hint), operand.elements[0], u)
      && Typed(s, Some(Scalar(Int)), operand.elements[1], w) && t == ElementAtType(hint, u);
    if hint.None? {
      TypeSound(ar, env, s, a, None, operand.elements[0], u, x, true);
    } else if !certain {
      HintKept(ar, env, s, a, ArrayOf(hint.value), operand.elements[0], u, x);
    }
    ElementStep(a, hint, u, x, y, v);
  }

  lemma {:induction false} SplitSound(ar: Arithmetic, env: Environment, s: ContextState, a: Assignment,
                                      operand: Expression, t: TypeConstraint, x: Value, y: Value, v: Value)
    requires KeepsTypes(ar) && Solution(s, a, env)
    requires TypedOperator(s, None, OperatorKind.Split, operand, t)
    requires forall i :: 0 <= i < |operand.elements| ==> CoveredText(s, a, operand.elements[i])
    requires EvaluatesPair(ar, env, operand, x, y) && Splitting(x, y, v)
    ensures Means(a, t, v)
    decreases operand, 2, 1
  {
    var ts :| TypedAll(s, Some(STRING_TYPE), operand, ts);
    TextSound(ar, env, s, a, operand.elements[0], ts[0], x);
    TextSound(ar, env, s, a, operand.elements[1], ts[1], y);
  }

  lemma {:induction false} TextSound(ar: Arithmetic, env: Environment, s: ContextState, a: Assignment,
                                     text: Expression, u: TypeConstraint, x: Value)
    requires KeepsTypes(ar) && Solution(s, a, env)
    requires Typed(s, Some(STRING_TYPE), text, u) && CoveredText(s, a, text) && Evaluates(ar, env, text, x)
    ensures x != NULL
    decreases text, 2
  {
    if x == NULL {
      TypeSound(ar, env, s, a, Some(STRING_TYPE), text, u, x, true);
    }
  }

  // ----- inference -----

  /** An expression that has a value is inferred without an error, if there is an input document. */
  lemma {:induction false} ValueTyped(ar: Arithmetic, env: Environment, e: Expression, v: Value)
    requires Evaluates(ar, env, e, v)
    ensures FirstError(e, true).None?
    decreases e, 1
  {
    match e
    case Leaf(_) =>
    case Text(_) =>
    case Array(elements) =>
      forall i | 0 <= i < |elements| ensures FirstError(elements[i], true).None? {
        ValueTyped(ar, env, elements[i], v.items[i]);
      }
      NoErrorFrom(e, 0);
    case Document(fields) =>
      if |fields| == 1 && NamesOperator(fields[0].name) {
        OperatorsOfOne(fields);
        OperatorTyped(ar, env, fields[0].name, fields[0].value, v);
      } else {
        NoOperators(fields);
        forall i | 0 <= i < |fields| ensures FirstError(fields[i].value, true).None? {
          ValueTyped(ar, env, fields[i].value, v.fields[fields[i].name]);
        }
        NoFieldErrorFrom(e, 0);
      }
  }

  lemma {:induction false} NoErrorFrom(e: Expression, i: nat)
    requires e.Array? && i <= |e.elements|
    requires forall k :: 0 <= k < |e.elements| ==> FirstError(e.elements[k], true).None?
    ensures FirstErrorFrom(e, true, i).None?
    decreases |e.elements| - i
  {
    if i < |e.elements| {
      NoErrorFrom(e, i + 1);
    }
  }

  lemma {:induction false} NoFieldErrorFrom(e: Expression, i: nat)
    requires e.Document? && i <= |e.fields|
    requires forall k :: 0 <= k < |e.fields| ==> FirstError(e.fields[k].value, true).None?
    ensures FirstFieldError(e, true, i).None?
    decreases |e.fields| - i
  {
    if i < |e.fields| {
      NoFieldErrorFrom(e, i + 1);
    }
  }

  lemma {:induction false} ArgumentTyped(ar: Arithmetic, env: Environment, operand: Expression, v: Value)
    requires EvaluatesArgument(ar, env, operand, v)
    ensures FirstError(operand, true).None?
    decreases operand, 2
  {
    if operand.Array? {
      ValueTyped(ar, env, operand.elements[0], v);
      NoErrorFrom(operand, 0);
    } else {
      ValueTyped(ar, env, operand, v);
    }
  }

  lemma {:induction false} PairTyped(ar: Arithmetic, env: Environment, operand: Expression, x: Value, y: Value)
    requires EvaluatesPair(ar, env, operand, x, y)
    ensures IsPair(operand) && FirstErrorFrom(operand, true, 0).None?
    decreases operand, 2
  {
    ValueTyped(ar, env, operand.elements[0], x);
    ValueTyped(ar, env, operand.elements[1], y);
    NoErrorFrom(operand, 0);
  }

  lemma {:induction false} OperatorTyped(ar: Arithmetic, env: Environment, op: string, operand: Expression, v: Value)
    requires EvaluatesOperator(ar, env, op, operand, v)
    ensures OperatorError(KindOf(op), op, operand, true).None?
    decreases operand, 3
  {
    KindsByName(op);
    if op == "$abs" || op in TRIGONOMETRIC || op == "$not" || op in QUANTIFIER {
      var x :| EvaluatesArgument(ar, env, operand, x);
      ArgumentTyped(ar, env, operand, x);
    } else if op in CONNECTIVE {
      forall i | 0 <= i < |operand.elements| ensures FirstError(operand.elements[i], true).None? {
        var x :| Evaluates(ar, env, operand.elements[i], x);
        ValueTyped(ar, env, operand.elements[i], x);
      }
      NoErrorFrom(operand, 0);
    } else {
      var x, y :| EvaluatesPair(ar, env, operand, x, y);
      PairTyped(ar, env, operand, x, y);
    }
  }

  /**
   What inference returns for an expression that has a value is a type, and one that the value has, if
   the expression is covered. The value is read in a solution of the final state.
   */
  lemma InferenceSound(ar: Arithmetic, env: Environment, before: ContextState, s: ContextState, a: Assignment,
                       configured: set<string>, desired: string, hint: Option<TypeConstraint>, e: Expression,
                       r: Result<TypeConstraint>, v: Value)
    requires AggregationExpressions.Inferred(before, s, configured, desired, hint, e, r) && before.input.Some?
    requires Evaluates(ar, env, e, v)
    ensures r.Ok?
    ensures KeepsTypes(ar) && Solution(s, a, env) && Bears(a, hint, v) && Covered(s, a, hint, e, r.value, true) ==>
      Means(a, r.value, v)
  {
    ValueTyped(ar, env, e, v);
    if KeepsTypes(ar) && Solution(s, a, env) && Bears(a, hint, v) && Covered(s, a, hint, e, r.value, true) {
      TypeSound(ar, env, s, a, hint, e, r.value, v, true);
    }
  }
}
