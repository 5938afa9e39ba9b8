/**
 Where inferred types fail: exactly which literals have their type, that arithmetic has to keep to the types
 of its operands, and that a hint decides the type of an array element. What hints restrict parameters to.
 */
module TypeSoundnessLimits {
  import opened Options
  import opened BsonScalars
  import opened ScalarValues
  import opened TypeConstraints
  import opened ConstraintGraphs
  import opened PipelineTypeContexts
  import opened ExpressionTyping
  import opened ExpressionValues
  import opened TypeSoundness

  // ----- literals -----

  /** Scalars, strings, arrays and documents without operators. */
  predicate Literal(e: Expression) {
    match e
    case Leaf(_) => true
    case Text(reference) => reference.PlainString?
    case Array(elements) => forall i :: 0 <= i < |elements| ==> Literal(elements[i])
    case Document(fields) =>
      forall i :: 0 <= i < |fields| ==> !NamesOperator(fields[i].name) && Literal(fields[i].value)
  }

  /** No array, and no undefined value. */
  predicate Flat(e: Expression) {
    match e
    case Leaf(leaf) => leaf != UndefinedValue
    case Text(_) => true
    case Array(_) => false
    case Document(fields) => forall i :: 0 <= i < |fields| ==> Flat(fields[i].value)
  }

  /** The type of a literal is never one of arrays. */
  lemma {:induction false} NoListMeant(s: ContextState, a: Assignment, env: Environment, hint: Option<TypeConstraint>,
                                       e: Expression, t: TypeConstraint, list: Value)
    requires Literal(e) && Typed(s, hint, e, t) && Solution(s, a, env) && list.List?
    ensures !Means(a, t, list)
    decreases e
  {
    match e
    case Leaf(_) =>
    case Text(_) =>
    case Array(elements) =>
      var ts :| TypedAll(s, ElementHint(hint), e, ts) && t == Union(set i | 0 <= i < |ts| :: ts[i]);
      forall i | 0 <= i < |ts| ensures !Means(a, ts[i], list) {
        NoListMeant(s, a, env, ElementHint(hint), elements[i], ts[i], list);
      }
    case Document(fields) =>
      NoOperators(fields);
  }

  /** The inferred type of a literal holds of its value exactly if the literal has no array and no undefined value. */
  lemma {:induction false} LiteralExact(ar: Arithmetic, env: Environment, s: ContextState, a: Assignment,
                                        hint: Option<TypeConstraint>, e: Expression, t: TypeConstraint, v: Value)
    requires Literal(e) && Typed(s, hint, e, t) && Solution(s, a, env) && Evaluates(ar, env, e, v)
    ensures Means(a, t, v) <==> Flat(e)
    decreases e, 1
  {
    match e
    case Leaf(leaf) => InhabitsExact(leaf, LeafType(leaf).scalar);
    case Text(_) =>
    case Array(_) => NoListMeant(s, a, env, hint, e, t, v);
    case Document(fields) =>
      NoOperators(fields);
      LiteralFieldsExact(ar, env, s, a, e, t, v);
  }

  lemma {:induction false} LiteralFieldsExact(ar: Arithmetic, env: Environment, s: ContextState, a: Assignment,
                                              e: Expression, t: TypeConstraint, v: Value)
    requires Literal(e) && Solution(s, a, env)
    requires e.Document? && TypedDocument(s, e, t) && EvaluatesFields(ar, env, e, v)
    ensures Means(a, t, v) <==> Flat(e)
    decreases e, 0
  {
    var types := s.graph.objects[t.name];
    forall i | 0 <= i < |e.fields|
      ensures e.fields[i].name in types
      ensures Means(a, types[e.fields[i].name], v.fields[e.fields[i].name]) <==> Flat(e.fields[i].value)
    {
      LiteralExact(ar, env, s, a, None, e.fields[i].value, types[e.fields[i].name], v.fields[e.fields[i].name]);
    }
    RecordOfFields(a, types, e.fields, v);
  }

  lemma RecordOfFields(a: Assignment, types: map<string, TypeConstraint>, fields: seq<ExpressionField>, v: Value)
    requires types.Keys == FieldNames(fields) && v.Record? && v.fields.Keys == types.Keys
    ensures RecordOf(a, types, v) <==>
      forall i :: 0 <= i < |fields| ==> Means(a, types[fields[i].name], v.fields[fields[i].name])
  {
    if forall i :: 0 <= i < |fields| ==> Means(a, types[fields[i].name], v.fields[fields[i].name]) {
      forall f | f in types ensures Means(a, types[f], v.fields[f]) {
        var i :| 0 <= i < |fields| && fields[i].name == f;
      }
    }
  }

  // ----- arithmetic -----

  ghost predicate SoundAt(ar: Arithmetic, env: Environment, s: ContextState, a: Assignment,
                          hint: Option<TypeConstraint>, e: Expression, t: TypeConstraint, v: Value, certain: bool) {
    (&& Solution(s, a, env) && Typed(s, hint, e, t) && Covered(s, a, hint, e, t, certain)
     && Evaluates(ar, env, e, v) && (certain ==> Bears(a, hint, v))) ==> Means(a, t, v)
  }

  /** The types of covered expressions hold of their values. */
  ghost predicate SoundWith(ar: Arithmetic) {
    forall env, s, a, hint, e, t, v, certain :: SoundAt(ar, env, s, a, hint, e, t, v, certain)
  }

  const INPUT: TypeVariable := TypeVariable(0, Covariant)
  const OPERANDS: TypeVariable := TypeVariable(1, Invariant)

  function InputField(name: string): Expression {
    Text(InputDocumentField(name, []))
  }

  function InputFieldType(name: string): TypeConstraint {
    FieldOf(Variable(INPUT), [name])
  }

  /** A state in which the operands of an operator have these types, and nothing is known of the input. */
  function OperandState(types: set<TypeConstraint>): ContextState {
    ContextState(Graph(map[INPUT := {}, OPERANDS := types + {NUMERIC_TYPE}], map[]), 2, map[], Some(INPUT))
  }

  function OperandAssignment(document: Value, values: set<Value>): Assignment {
    Assignment((x: TypeVariable, v: Value) => if x == OPERANDS then v in values else v == document,
               (name: string, v: Value) => false)
  }

  lemma InputLeadsNowhere(types: set<TypeConstraint>, name: string)
    ensures !LeadsTo(OperandState(types).graph, InputFieldType(name), OPERANDS)
  {
    var g, c := OperandState(types).graph, InputFieldType(name);
    assert Refs(c) == {VariableNode(INPUT)};
    assert Constraints(g, VariableNode(INPUT)) == {};
    SinkReaches(g, VariableNode(INPUT), VariableNode(OPERANDS));
  }

  function Operation(op: string, x: Expression, y: Expression): Expression {
    Document([ExpressionField(op, Array([x, y]))])
  }

  lemma ArithmeticName(op: string)
    requires op in ARITHMETIC
    ensures NamesOperator(op) && op != "$abs" && op !in TRIGONOMETRIC
  {
  }

  lemma OperationEvaluates(ar: Arithmetic, env: Environment, op: string, left: Expression, right: Expression,
                           x: Value, y: Value, v: Value)
    requires op in ARITHMETIC && Evaluates(ar, env, left, x) && Evaluates(ar, env, right, y)
    requires Calculation(ar, op, x, y, v)
    ensures Evaluates(ar, env, Operation(op, left, right), v)
  {
    ArithmeticName(op);
    assert EvaluatesPair(ar, env, Array([left, right]), x, y);
  }

  lemma Refutes(ar: Arithmetic, env: Environment, s: ContextState, a: Assignment, e: Expression, t: TypeConstraint,
                v: Value)
    requires Solution(s, a, env) && Typed(s, None, e, t) && Covered(s, a, None, e, t, true)
    requires Evaluates(ar, env, e, v) && !Means(a, t, v)
    ensures !SoundWith(ar)
  {
    assert !SoundAt(ar, env, s, a, None, e, t, v, true);
  }

  function TwoFields(n: string, x: BsonLeaf, m: string, y: BsonLeaf): Value {
    Record(map[n := Atom(x), m := Atom(y)])
  }

  lemma AtTwoFields(n: string, x: BsonLeaf, m: string, y: BsonLeaf)
    requires n != m
    ensures At(TwoFields(n, x, m, y), [n]) == Atom(x) && At(TwoFields(n, x, m, y), [m]) == Atom(y)
  {
    assert [n][1..] == [] && [m][1..] == [];
  }

  /** Two numbers for which an operator yields a number of another type, held by fields of the input. */
  lemma ArithmeticFails(ar: Arithmetic, op: string, n: string, x: BsonLeaf, m: string, y: BsonLeaf, z: BsonLeaf)
    requires op in ARITHMETIC && Number(x) && Number(y) && ar(op, x, y, z) && z != x && z != y && n != m
    ensures !SoundWith(ar)
  {
    var types := {InputFieldType(n), InputFieldType(m)};
    var document := TwoFields(n, x, m, y);
    var a := OperandAssignment(document, {Atom(x), Atom(y)});
    var env := Environment((name: string) => NULL, document);
    FieldsSolve(a, types, n, x, m, y);
    FieldsTyped(types, op, n, m);
    FieldsCovered(types, a, op, n, m);
    FieldsEvaluate(ar, env, op, n, x, m, y, z);
    Refutes(ar, env, OperandState(types), a, Operation(op, InputField(n), InputField(m)), Variable(OPERANDS), Atom(z));
  }

  lemma FieldsEvaluate(ar: Arithmetic, env: Environment, op: string, n: string, x: BsonLeaf, m: string, y: BsonLeaf,
                       z: BsonLeaf)
    requires op in ARITHMETIC && ar(op, x, y, z) && env.input == TwoFields(n, x, m, y) && n != m
    ensures Evaluates(ar, env, Operation(op, InputField(n), InputField(m)), Atom(z))
  {
    AtTwoFields(n, x, m, y);
    assert [n] + [] == [n] && [m] + [] == [m];
    OperationEvaluates(ar, env, op, InputField(n), InputField(m), Atom(x), Atom(y), Atom(z));
  }

  lemma FieldsSolve(a: Assignment, types: set<TypeConstraint>, n: string, x: BsonLeaf, m: string, y: BsonLeaf)
    requires Number(x) && Number(y) && n != m && types == {InputFieldType(n), InputFieldType(m)}
    requires a == OperandAssignment(TwoFields(n, x, m, y), {Atom(x), Atom(y)})
    ensures Solves(a, OperandState(types))
  {
    var s, document := OperandState(types), TwoFields(n, x, m, y);
    AtTwoFields(n, x, m, y);
    forall k, c | k in s.graph.variables && c in s.graph.variables[k] ensures Bounds(a, k, c) {
      if c == NUMERIC_TYPE {
        NumbersBounded(a, document, {Atom(x), Atom(y)});
      } else {
        var name := if c == InputFieldType(n) then n else m;
        assert k == OPERANDS && c == InputFieldType(name);
        FieldBounded(a, document, {Atom(x), Atom(y)}, name);
      }
    }
  }

  lemma NumbersBounded(a: Assignment, document: Value, values: set<Value>)
    requires a == OperandAssignment(document, values)
    requires forall v :: v in values ==> v.Atom? && Number(v.leaf)
    ensures Bounds(a, OPERANDS, NUMERIC_TYPE)
  {
    forall v | a.variables(OPERANDS, v) ensures Means(a, NUMERIC_TYPE, v) {
      MeansNumeric(a, v);
    }
  }

  lemma FieldBounded(a: Assignment, document: Value, values: set<Value>, name: string)
    requires a == OperandAssignment(document, values) && At(document, [name]) in values
    ensures Bounds(a, OPERANDS, InputFieldType(name))
  {
    forall v | Means(a, InputFieldType(name), v) ensures a.variables(OPERANDS, v) {
      var d: Value :| Means(a, Variable(INPUT), d) && v == At(d, [name]);
    }
  }

  lemma FieldsTyped(types: set<TypeConstraint>, op: string, x: string, y: string)
    requires op in ARITHMETIC && InputFieldType(x) in types && InputFieldType(y) in types
    ensures Typed(OperandState(types), None, Operation(op, InputField(x), InputField(y)), Variable(OPERANDS))
  {
    var s, t := OperandState(types), Variable(OPERANDS);
    assert [x] + [] == [x] && [y] + [] == [y];
    assert Typed(s, Some(t), InputField(x), InputFieldType(x)) && Typed(s, Some(t), InputField(y), InputFieldType(y));
    OperationTyped(s, op, InputField(x), InputField(y), InputFieldType(x), InputFieldType(y));
  }

  lemma OperationTyped(s: ContextState, op: string, left: Expression, right: Expression, u: TypeConstraint,
                       w: TypeConstraint)
    requires op in ARITHMETIC && OPERANDS in s.graph.variables && NUMERIC_TYPE in s.graph.variables[OPERANDS]
    requires Typed(s, Some(Variable(OPERANDS)), left, u) && Typed(s, Some(Variable(OPERANDS)), right, w)
    requires u in s.graph.variables[OPERANDS] || LeadsTo(s.graph, u, OPERANDS)
    requires w in s.graph.variables[OPERANDS] || LeadsTo(s.graph, w, OPERANDS)
    ensures Typed(s, None, Operation(op, left, right), Variable(OPERANDS))
  {
    var e, t := Operation(op, left, right), Variable(OPERANDS);
    var operand, ts := Array([left, right]), [u, w];
    ArithmeticName(op);
    OperatorsOfOne(e.fields);
    KindsByName(op);
    assert TypedAll(s, Some(t), operand, ts);
    assert Unites(s, Some(NUMERIC_TYPE), ts, OPERANDS);
    assert TypedHomogeneous(s, Some(NUMERIC_TYPE), operand, t);
  }

  lemma FieldsCovered(types: set<TypeConstraint>, a: Assignment, op: string, x: string, y: string)
    requires op in ARITHMETIC
    ensures Covered(OperandState(types), a, None, Operation(op, InputField(x), InputField(y)), Variable(OPERANDS), true)
  {
    FieldCovered(types, a, x);
    FieldCovered(types, a, y);
    ArithmeticName(op);
  }

  lemma FieldCovered(types: set<TypeConstraint>, a: Assignment, name: string)
    ensures CoveredOperand(OperandState(types), a, InputField(name), Variable(OPERANDS))
  {
    InputLeadsNowhere(types, name);
    assert [name] + [] == [name];
  }

  lemma KeptSound(ar: Arithmetic, env: Environment, s: ContextState, a: Assignment, hint: Option<TypeConstraint>,
                  e: Expression, t: TypeConstraint, v: Value, certain: bool)
    requires KeepsTypes(ar)
    ensures SoundAt(ar, env, s, a, hint, e, t, v, certain)
  {
    if && Solution(s, a, env) && Typed(s, hint, e, t) && Covered(s, a, hint, e, t, certain)
       && Evaluates(ar, env, e, v) && (certain ==> Bears(a, hint, v))
    {
      TypeSound(ar, env, s, a, hint, e, t, v, certain);
    }
  }

  /** Covered expressions have their inferred types exactly if arithmetic keeps to the types of its operands. */
  lemma ArithmeticExact(ar: Arithmetic)
    ensures SoundWith(ar) <==> KeepsTypes(ar)
  {
    if KeepsTypes(ar) {
      forall env, s, a, hint, e, t, v, certain ensures SoundAt(ar, env, s, a, hint, e, t, v, certain) {
        KeptSound(ar, env, s, a, hint, e, t, v, certain);
      }
    }
    if SoundWith(ar) {
      forall op, x, y, z | op in ARITHMETIC && Number(x) && Number(y) && ar(op, x, y, z) ensures z == x || z == y {
        if z != x && z != y {
          ArithmeticFails(ar, op, "x", x, "y", y, z);
        }
      }
    }
  }

  // ----- splitting -----

  ghost predicate SplitTyped(a: Assignment, u: TypeConstraint, w: TypeConstraint) {
    forall text, separator, v :: Means(a, u, text) && Means(a, w, separator) && Splitting(text, separator, v) ==>
      Means(a, ArrayOf(STRING_TYPE), v)
  }

  lemma SplitStrings(a: Assignment, text: Value, separator: Value, v: Value)
    requires Splitting(text, separator, v)
    ensures Means(a, ArrayOf(STRING_TYPE), v) <==> text != NULL && separator != NULL
  {
  }

  lemma SplitFails(a: Assignment, u: TypeConstraint, w: TypeConstraint, text: Value, separator: Value)
    requires Means(a, u, text) && Means(a, w, separator) && (text == NULL || separator == NULL)
    ensures !SplitTyped(a, u, w)
  {
    assert Splitting(text, separator, NULL);
    SplitStrings(a, text, separator, NULL);
  }

  lemma SplitHolds(a: Assignment, u: TypeConstraint, w: TypeConstraint)
    requires !Means(a, u, NULL) && !Means(a, w, NULL)
    ensures SplitTyped(a, u, w)
  {
    forall text, separator, v | Means(a, u, text) && Means(a, w, separator) && Splitting(text, separator, v)
      ensures Means(a, ArrayOf(STRING_TYPE), v)
    {
      SplitStrings(a, text, separator, v);
    }
  }

  /** Texts of some types are split into strings exactly if neither of the types has null. */
  lemma SplittingExact(a: Assignment, u: TypeConstraint, w: TypeConstraint, x: Value, y: Value)
    requires Means(a, u, x) && Means(a, w, y)
    ensures SplitTyped(a, u, w) <==> !Means(a, u, NULL) && !Means(a, w, NULL)
  {
    if Means(a, u, NULL) {
      SplitFails(a, u, w, NULL, y);
    } else if Means(a, w, NULL) {
      SplitFails(a, u, w, x, NULL);
    } else {
      SplitHolds(a, u, w);
    }
  }

  // ----- elements of arrays -----

  ghost predicate ElementTyped(a: Assignment, hint: Option<TypeConstraint>, u: TypeConstraint, index: Value) {
    forall list, v :: Means(a, u, list) && ElementOrNull(list, index, v) ==> Means(a, ElementAtType(hint, u), v)
  }

  /** The type of an element holds of all elements of arrays of a type exactly if these bear the hint, if any. */
  lemma ElementExact(a: Assignment, hint: Option<TypeConstraint>, u: TypeConstraint, index: Value)
    requires index.Atom? && Number(index.leaf)
    ensures ElementTyped(a, hint, u, index) <==> forall v :: Means(a, ElementOf(u), v) ==> Bears(a, hint, v)
  {
    forall list, v | Means(a, u, list) && ElementOrNull(list, index, v)
      ensures Means(a, ElementAtType(hint, u), v) <==> Bears(a, hint, v) || v == NULL
      ensures v == NULL || Means(a, ElementOf(u), v)
    {
      MeansNullable(a, if hint.Some? then hint.value else ElementOf(u), v);
    }
    forall v | Means(a, ElementOf(u), v) ensures exists list :: Means(a, u, list) && ElementOrNull(list, index, v) {
      var list: Value :| list.List? && v in list.items && Means(a, u, list);
      assert ElementOrNull(list, index, v);
    }
  }

  /**
   In `{$add: [{$arrayElemAt: ["$xs", 0]}, 1]}` the element has the type of the operands as a hint. It is
   typed by the hint, so that an array of doubles does not keep the operands from being integers.
   */
  lemma HintedElementFails(ar: Arithmetic, op: string, name: string)
      returns (s: ContextState, a: Assignment, env: Environment, e: Expression)
    requires op in ARITHMETIC && ar(op, DoubleValue, Int32, DoubleValue)
    ensures e == Operation(op, FirstOf(name), Leaf(Int32))
    ensures Solution(s, a, env) && Typed(s, None, e, Variable(OPERANDS))
    ensures Evaluates(ar, env, e, Atom(DoubleValue)) && !Means(a, Variable(OPERANDS), Atom(DoubleValue))
  {
    var document := OneField(name, List([Atom(DoubleValue)]));
    s := OperandState({Scalar(Int)});
    a := OperandAssignment(document, {Atom(Int32)});
    env := Environment((parameter: string) => NULL, document);
    e := Operation(op, FirstOf(name), Leaf(Int32));
    IntegersSolve(a, document);
    HintedSumTyped(s, op, name);
    HintedElementEvaluates(ar, env, name);
    OperationEvaluates(ar, env, op, FirstOf(name), Leaf(Int32), Atom(DoubleValue), Atom(Int32), Atom(DoubleValue));
  }

  function FirstOf(name: string): Expression {
    Operation("$arrayElemAt", InputField(name), Leaf(Int32))
  }

  function OneField(name: string, v: Value): Value {
    Record(map[name := v])
  }

  lemma IntegersSolve(a: Assignment, document: Value)
    requires a == OperandAssignment(document, {Atom(Int32)})
    ensures Solves(a, OperandState({Scalar(Int)}))
  {
    NumbersBounded(a, document, {Atom(Int32)});
    assert forall v :: Means(a, Scalar(Int), v) ==> v == Atom(Int32);
    assert Bounds(a, OPERANDS, Scalar(Int));
  }

  lemma HintedElementTyped(s: ContextState, name: string)
    requires s.input == Some(INPUT)
    ensures Typed(s, Some(Variable(OPERANDS)), FirstOf(name), MakeNullable(Variable(OPERANDS)))
  {
    HintedPairTyped(s, Some(Variable(OPERANDS)), name);
    OperatorsOfOne(FirstOf(name).fields);
    KindsByName("$arrayElemAt");
  }

  lemma HintedPairTyped(s: ContextState, hint: Option<TypeConstraint>, name: string)
    requires s.input == Some(INPUT) && hint.Some?
    ensures TypedOperator(s, hint, OperatorKind.ElementAt, Array([InputField(name), Leaf(Int32)]),
                          MakeNullable(hint.value))
  {
    var operand := Array([InputField(name), Leaf(Int32)]);
    assert [name] + [] == [name];
    assert Typed(s, ArrayHint(hint), operand.elements[0], InputFieldType(name));
    IntegerTyped(s, Some(Scalar(Int)));
    assert operand.elements[1] == Leaf(Int32);
    assert TypedElementAt(s, hint, operand, ElementAtType(hint, InputFieldType(name)));
  }

  lemma HintedElementEvaluates(ar: Arithmetic, env: Environment, name: string)
    requires env.input == OneField(name, List([Atom(DoubleValue)]))
    ensures Evaluates(ar, env, FirstOf(name), Atom(DoubleValue))
  {
    var operand, list := Array([InputField(name), Leaf(Int32)]), List([Atom(DoubleValue)]);
    assert [name] + [] == [name] && [name][1..] == [];
    assert At(env.input, [name]) == At(list, []) == list;
    assert Evaluates(ar, env, operand.elements[0], list);
    assert EvaluatesPair(ar, env, operand, list, Atom(Int32));
    assert ElementOrNull(list, Atom(Int32), Atom(DoubleValue));
  }

  lemma IntegerTyped(s: ContextState, hint: Option<TypeConstraint>)
    ensures Typed(s, hint, Leaf(Int32), Scalar(Int))
  {
    assert LeafType(Int32) == Scalar(Int);
  }

  lemma HintedSumTyped(s: ContextState, op: string, name: string)
    requires op in ARITHMETIC && s.input == Some(INPUT)
    requires OPERANDS in s.graph.variables
    requires NUMERIC_TYPE in s.graph.variables[OPERANDS] && Scalar(Int) in s.graph.variables[OPERANDS]
    ensures Typed(s, None, Operation(op, FirstOf(name), Leaf(Int32)), Variable(OPERANDS))
  {
    assert Typed(s, Some(Variable(OPERANDS)), FirstOf(name), MakeNullable(Variable(OPERANDS))) by {
      HintedElementTyped(s, name);
    }
    assert LeadsTo(s.graph, MakeNullable(Variable(OPERANDS)), OPERANDS) by { NullableLeads(s.graph); }
    IntegerTyped(s, Some(Variable(OPERANDS)));
    OperationTyped(s, op, FirstOf(name), Leaf(Int32), MakeNullable(Variable(OPERANDS)), Scalar(Int));
  }

  lemma NullableLeads(g: Graph)
    ensures LeadsTo(g, MakeNullable(Variable(OPERANDS)), OPERANDS)
  {
    ReachesSelf(g, VariableNode(OPERANDS));
    assert VariableNode(OPERANDS) in Refs(Variable(OPERANDS));
  }

  // ----- parameters -----

  /** A parameter has values of its annotated type only. */
  lemma ParameterAnnotated(s: ContextState, a: Assignment, env: Environment, hint: Option<TypeConstraint>,
                           e: Expression, name: string, t: TypeConstraint)
    requires Solution(s, a, env) && IsParameter(e, name) && Typed(s, hint, e, t) && e.reference.annotation.Some?
    ensures Annotated(a, e.reference.annotation.value, env.parameters(name))
  {
    var c, cs := FromType(e.reference.annotation.value), ParameterConstraints(hint, e.reference.annotation);
    assert cs[|cs| - 1] == c;
    assert HasConstraint(s, name, c);
    assert Bounds(a, s.parameters[name], c);
    AnnotationMeans(a, e.reference.annotation.value, env.parameters(name));
  }

  /** A parameter that is part of a string is a string. */
  lemma ParameterInString(s: ContextState, a: Assignment, env: Environment, hint: Option<TypeConstraint>,
                          variables: seq<string>, name: string, t: TypeConstraint)
    requires Solution(s, a, env) && Typed(s, hint, Text(PlainString(variables)), t) && name in variables
    ensures env.parameters(name) == Atom(StringValue)
  {
    assert HasConstraint(s, name, STRING_TYPE);
    assert Bounds(a, s.parameters[name], STRING_TYPE);
  }

  /** As the argument of an operator a parameter has values only that the operator takes. */
  lemma ParameterAsArgument(s: ContextState, a: Assignment, env: Environment, op: string, e: Expression, name: string,
                            t: TypeConstraint)
    requires Solution(s, a, env) && IsParameter(e, name) && TypedOperator(s, None, KindOf(op), e, t)
    ensures var v := env.parameters(name);
      && (op == "$abs" || op in TRIGONOMETRIC ==> v.Atom? && Number(v.leaf))
      && (op == "$not" ==> v == BOOLEAN)
      && (op in QUANTIFIER ==> v.List? && forall i :: 0 <= i < |v.items| ==> v.items[i] == BOOLEAN)
  {
    KindsByName(op);
    if op == "$abs" || op in TRIGONOMETRIC {
      NumericArgument(s, a, env, KindOf(op), e, name, t);
    } else if op == "$not" || op in QUANTIFIER {
      ConditionArgument(s, a, env, KindOf(op), e, name, t);
    }
  }

  lemma NumericArgument(s: ContextState, a: Assignment, env: Environment, kind: OperatorKind, e: Expression,
                        name: string, t: TypeConstraint)
    requires Solution(s, a, env) && IsParameter(e, name) && TypedOperator(s, None, kind, e, t)
    requires kind.Absolute? || kind.Trigonometric?
    ensures env.parameters(name).Atom? && Number(env.parameters(name).leaf)
  {
    var u :| Typed(s, Some(NUMERIC_TYPE), e, u);
    ParameterHint(s, a, env, NUMERIC_TYPE, e, name, u);
    MeansNumeric(a, env.parameters(name));
  }

  lemma ConditionArgument(s: ContextState, a: Assignment, env: Environment, kind: OperatorKind, e: Expression,
                          name: string, t: TypeConstraint)
    requires Solution(s, a, env) && IsParameter(e, name) && TypedOperator(s, None, kind, e, t)
    requires kind.Negation? || kind.Quantifying?
    ensures Means(a, if kind.Negation? then BOOL_TYPE else ArrayOf(BOOL_TYPE), env.parameters(name))
  {
    assert TypedCondition(s, kind, e);
    if kind.Negation? {
      var u :| Typed(s, Some(BOOL_TYPE), e, u);
      ParameterHint(s, a, env, BOOL_TYPE, e, name, u);
    } else {
      var u :| Typed(s, Some(ArrayOf(BOOL_TYPE)), e, u);
      ParameterHint(s, a, env, ArrayOf(BOOL_TYPE), e, name, u);
    }
  }

  /** As an element of an array a parameter has values that the hint for the array allows in it. */
  lemma ParameterAsElement(s: ContextState, a: Assignment, env: Environment, hint: TypeConstraint, e: Expression,
                           i: nat, name: string, t: TypeConstraint)
    requires Solution(s, a, env) && e.Array? && Typed(s, Some(hint), e, t)
    requires i < |e.elements| && IsParameter(e.elements[i], name)
    ensures if hint.ArrayOf? then Means(a, hint.element, env.parameters(name))
            else Means(a, ElementOf(hint), env.parameters(name))
  {
    var ts :| TypedAll(s, ElementHint(Some(hint)), e, ts);
    var element := if hint.ArrayOf? then hint.element else ElementOf(hint);
    assert Typed(s, Some(element), e.elements[i], ts[i]);
    ParameterHint(s, a, env, element, e.elements[i], name, ts[i]);
  }

  /** As one of several operands, too. */
  lemma ParameterAsOperand(s: ContextState, a: Assignment, env: Environment, op: string, operand: Expression, i: nat,
                           name: string, t: TypeConstraint)
    requires Solution(s, a, env) && TypedOperator(s, None, KindOf(op), operand, t)
    requires operand.Array? && i < |operand.elements| && IsParameter(operand.elements[i], name)
    ensures var v := env.parameters(name);
      && (op in ARITHMETIC ==> v.Atom? && Number(v.leaf))
      && (op in ORDER ==>
            v.Atom? && !v.leaf.RegularExpression? && !v.leaf.JavaScriptCode? && !v.leaf.JavaScriptCodeWithScope?)
      && (op == "$split" ==> v == Atom(StringValue))
      && (op == "$arrayElemAt" && i == 1 ==> v == Atom(Int32))
  {
    KindsByName(op);
    if op in ARITHMETIC {
      ParameterUnited(s, a, env, NUMERIC_TYPE, operand, i, name, t);
      MeansNumeric(a, env.parameters(name));
    } else if op in ORDER {
      OrderOperand(s, a, env, operand, i, name);
    } else if op == "$split" || (op == "$arrayElemAt" && i == 1) {
      ScalarOperand(s, a, env, KindOf(op), operand, i, name, t);
    }
  }

  lemma OrderOperand(s: ContextState, a: Assignment, env: Environment, operand: Expression, i: nat, name: string)
    requires Solution(s, a, env) && TypedCondition(s, Order, operand)
    requires operand.Array? && i < |operand.elements| && IsParameter(operand.elements[i], name)
    ensures var v := env.parameters(name);
      v.Atom? && !v.leaf.RegularExpression? && !v.leaf.JavaScriptCode? && !v.leaf.JavaScriptCodeWithScope?
  {
    var u :| TypedHomogeneous(s, Some(COMPARABLE_TYPE), operand, u);
    ParameterUnited(s, a, env, COMPARABLE_TYPE, operand, i, name, u);
    MeansComparable(a, env.parameters(name));
  }

  lemma ScalarOperand(s: ContextState, a: Assignment, env: Environment, kind: OperatorKind, operand: Expression, i: nat,
                      name: string, t: TypeConstraint)
    requires Solution(s, a, env) && TypedOperator(s, None, kind, operand, t)
    requires operand.Array? && i < |operand.elements| && IsParameter(operand.elements[i], name)
    requires kind.Split? || (kind.ElementAt? && i == 1)
    ensures Means(a, if kind.Split? then STRING_TYPE else Scalar(Int), env.parameters(name))
  {
    if kind.Split? {
      var ts :| TypedAll(s, Some(STRING_TYPE), operand, ts);
      assert Typed(s, Some(STRING_TYPE), operand.elements[i], ts[i]);
      ParameterHint(s, a, env, STRING_TYPE, operand.elements[i], name, ts[i]);
    } else {
      assert TypedElementAt(s, None, operand, t);
      var u, w :| Typed(s, ArrayHint(None), operand.elements[0], u)
        && Typed(s, Some(Scalar(Int)), operand.elements[1], w);
      ParameterHint(s, a, env, Scalar(Int), operand.elements[i], name, w);
    }
  }

  /** Operands of one type share the constraint that the operator puts on them. */
  lemma ParameterUnited(s: ContextState, a: Assignment, env: Environment, hint: TypeConstraint, operand: Expression,
                        i: nat, name: string, t: TypeConstraint)
    requires Solution(s, a, env) && hint.OneOf? && TypedHomogeneous(s, Some(hint), operand, t)
    requires i < |operand.elements| && IsParameter(operand.elements[i], name)
    ensures Means(a, hint, env.parameters(name))
  {
    var ts :| TypedAll(s, Some(t), operand, ts) && Unites(s, Some(hint), ts, t.variable);
    assert Typed(s, Some(t), operand.elements[i], ts[i]);
    ParameterHint(s, a, env, t, operand.elements[i], name, ts[i]);
    assert Bounds(a, t.variable, hint);
  }
}
