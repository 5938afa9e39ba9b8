/**
 Aggregation expressions and what it means for a type constraint to be a type of one in a context
 state, stated apart from how types are inferred.
 */
module ExpressionTyping {
  import opened Options
  import opened BsonScalars
  import SchemaTypes
  import opened TypeConstraints
  import opened ConstraintGraphs
  import opened PipelineTypeContexts

  // ----- expressions -----

  /** A string in an expression, parsed. */
  datatype Reference =
    | NativeQueryVariable(name: string, annotation: Option<SchemaTypes.Type>)
    | PipelineVariable(name: string)
    | InputDocumentField(name: string, nestedPath: seq<string>)
    | PlainString(variables: seq<string>)
    | Unparsable

  /** Strings are `Text`; all other scalar values are leaves. */
  datatype Expression =
    | Leaf(value: BsonLeaf)
    | Text(reference: Reference)
    | Array(elements: seq<Expression>)
    | Document(fields: seq<ExpressionField>)

  datatype ExpressionField = ExpressionField(name: string, value: Expression)

  datatype InferenceError =
    | MultipleExpressionOperators
    | UnknownAggregationOperator(name: string)
    | ExpectedArrayExpressionArgument
    | UnableToParseReferenceShorthand
    | IncompletePipeline
    | OtherError

  datatype Result<+T> = Ok(value: T) | Err(error: InferenceError)

  predicate IsOperator(name: string) {
    name != "" && name[0] == '$'
  }

  /** The positions of the operators among a document's keys. */
  function Operators(fields: seq<ExpressionField>): (positions: seq<nat>)
    ensures forall k :: 0 <= k < |positions| ==> positions[k] < |fields| && IsOperator(fields[positions[k]].name)
    ensures positions == [] <==> forall i :: 0 <= i < |fields| ==> !IsOperator(fields[i].name)
  {
    if fields == [] then []
    else
      var init := Operators(fields[..|fields| - 1]);
      if IsOperator(fields[|fields| - 1].name) then init + [|fields| - 1] else init
  }

  datatype OperatorKind =
    | Absolute | Trigonometric | Arithmetic
    | Logical | Negation | Equality | Order | Quantifying
    | ElementAt | Split | Unknown

  function KindOf(op: string): OperatorKind {
    if op == "$abs" then Absolute
    else if op in {"$sin", "$cos", "$tan", "$asin", "$acos", "$atan",
                   "$asinh", "$acosh", "$atanh", "$sinh", "$cosh", "$tanh"} then
      Trigonometric
    else if op in {"$add", "$divide", "$multiply", "$subtract"} then Arithmetic
    else if op in {"$and", "$or"} then Logical
    else if op == "$not" then Negation
    else if op in {"$eq", "$ne"} then Equality
    else if op in {"$gt", "$gte", "$lt", "$lte"} then Order
    else if op in {"$allElementsTrue", "$anyElementTrue"} then Quantifying
    else if op == "$arrayElemAt" then ElementAt
    else if op == "$split" then Split
    else Unknown
  }

  predicate IsPair(operand: Expression) {
    operand.Array? && |operand.elements| == 2
  }

  // ----- admissible expressions -----

  /** Inference generates an object type for some document in the expression. */
  predicate Generates(e: Expression) {
    match e
    case Leaf(_) => false
    case Text(_) => false
    case Array(elements) => exists i :: 0 <= i < |elements| && Generates(elements[i])
    case Document(fields) =>
      var operators := Operators(fields);
      operators == [] || Generates(fields[operators[0]].value)
  }

  /** The keys of a document are distinct, and annotations name configured object types only. */
  predicate Ordinary(e: Expression, configured: set<string>) {
    match e
    case Leaf(_) => true
    case Text(reference) =>
      reference.NativeQueryVariable? && reference.annotation.Some? ==>
        AnnotationConfigured(reference.annotation.value, configured)
    case Array(elements) => forall i :: 0 <= i < |elements| ==> Ordinary(elements[i], configured)
    case Document(fields) =>
      && (forall i :: 0 <= i < |fields| ==> Ordinary(fields[i].value, configured))
      && (forall i, j :: 0 <= i < j < |fields| ==> fields[i].name != fields[j].name)
  }

  /** The keys of plain documents do not look like counters where object types are generated for the value. */
  predicate NoCounters(e: Expression) {
    match e
    case Leaf(_) => true
    case Text(_) => true
    case Array(elements) => forall i :: 0 <= i < |elements| ==> NoCounters(elements[i])
    case Document(fields) =>
      && (forall i :: 0 <= i < |fields| ==> NoCounters(fields[i].value))
      && (Operators(fields) == [] ==>
            forall i :: 0 <= i < |fields| && Generates(fields[i].value) ==> !CounterLike(fields[i].name))
  }

  predicate Admissible(e: Expression, configured: set<string>) {
    Ordinary(e, configured) && NoCounters(e)
  }

  predicate AnnotationConfigured(t: SchemaTypes.Type, configured: set<string>) {
    match t
    case Object(n) => n in configured
    case Predicate(n) => n in configured
    case ArrayOf(element) => AnnotationConfigured(element, configured)
    case Nullable(inner) => AnnotationConfigured(inner, configured)
    case _ => true
  }

  lemma {:induction false} AnnotationNames(t: SchemaTypes.Type, configured: set<string>)
    requires AnnotationConfigured(t, configured)
    ensures forall n :: Names(t, n) ==> n in configured
  {
    match t
    case ArrayOf(element) => AnnotationNames(element, configured);
    case Nullable(inner) => AnnotationNames(inner, configured);
    case _ =>
  }

  // ----- types of results -----

  /** Unlike in sampling, all binary data has one type, and undefined counts as null. */
  function LeafType(leaf: BsonLeaf): TypeConstraint {
    match leaf
    case Binary(_) => Scalar(BinData)
    case UndefinedValue => Scalar(Null)
    case _ => Scalar(ScalarOf(leaf))
  }

  const BOOL_TYPE: TypeConstraint := Scalar(Bool)
  const STRING_TYPE: TypeConstraint := Scalar(String)

  /** Trigonometric operators keep decimals and otherwise yield doubles; a union stays nullable. */
  function TrigType(operand: TypeConstraint): (t: TypeConstraint)
    ensures Refs(t) == {}
  {
    if operand.Union? then
      UnionOf(if operand.types - {NULL_TYPE} == {Scalar(Decimal)} then Scalar(Decimal) else Scalar(Double), NULL_TYPE)
    else if operand == Scalar(Decimal) then operand
    else Scalar(Double)
  }

  function ElementHint(hint: Option<TypeConstraint>): Option<TypeConstraint> {
    match hint
    case None => None
    case Some(ArrayOf(t)) => Some(t)
    case Some(t) => Some(ElementOf(t))
  }

  function ArrayHint(hint: Option<TypeConstraint>): Option<TypeConstraint> {
    if hint.Some? then Some(ArrayOf(hint.value)) else None
  }

  /** What the hint and the annotation say about a native query variable. */
  function ParameterConstraints(hint: Option<TypeConstraint>,
                                annotation: Option<SchemaTypes.Type>): seq<TypeConstraint> {
    (if hint.Some? then [hint.value] else []) + (if annotation.Some? then [FromType(annotation.value)] else [])
  }

  function ElementAtType(hint: Option<TypeConstraint>, arrayType: TypeConstraint): (t: TypeConstraint)
    ensures Refs(t) == Refs(if hint.Some? then hint.value else arrayType)
  {
    MakeNullable(if hint.Some? then hint.value else ElementOf(arrayType))
  }

  // ----- the typing relation -----

  ghost predicate HasConstraint(s: ContextState, parameter: string, c: TypeConstraint) {
    parameter in s.parameters && c in Constraints(s.graph, VariableNode(s.parameters[parameter]))
  }

  /** `t` is a type of `e` in the state, and the parameters in `e` carry what their use says about them. */
  ghost predicate Typed(s: ContextState, hint: Option<TypeConstraint>, e: Expression, t: TypeConstraint)
    decreases e, 1
  {
    match e
    case Leaf(leaf) => t == LeafType(leaf)
    case Text(reference) => TypedReference(s, hint, reference, t)
    case Array(_) =>
      exists ts :: TypedAll(s, ElementHint(hint), e, ts) && t == Union(set i | 0 <= i < |ts| :: ts[i])
    case Document(fields) =>
      var operators := Operators(fields);
      if operators == [] then TypedDocument(s, e, t)
      else |operators| == 1 && TypedOperator(s, hint, KindOf(fields[operators[0]].name), fields[operators[0]].value, t)
  }

  ghost predicate TypedReference(s: ContextState, hint: Option<TypeConstraint>, reference: Reference,
                                 t: TypeConstraint) {
    match reference
    case NativeQueryVariable(name, annotation) =>
      && name in s.parameters && t == Variable(s.parameters[name])
      && forall c :: c in ParameterConstraints(hint, annotation) ==> HasConstraint(s, name, c)
    case InputDocumentField(name, nestedPath) =>
      s.input.Some? && t == FieldOf(Variable(s.input.value), [name] + nestedPath)
    case PlainString(variables) =>
      t == STRING_TYPE && forall name :: name in variables ==> HasConstraint(s, name, STRING_TYPE)
    case _ => false
  }

  ghost predicate TypedAll(s: ContextState, hint: Option<TypeConstraint>, e: Expression, ts: seq<TypeConstraint>)
    requires e.Array?
    decreases e, 0
  {
    |ts| == |e.elements| && forall i :: 0 <= i < |ts| ==> Typed(s, hint, e.elements[i], ts[i])
  }

  function FieldNames(fields: seq<ExpressionField>): set<string> {
    set i | 0 <= i < |fields| :: fields[i].name
  }

  ghost predicate TypedDocument(s: ContextState, e: Expression, t: TypeConstraint)
    requires e.Document?
    decreases e, 0
  {
    && t.Object? && t.name in s.graph.objects
    && s.graph.objects[t.name].Keys == FieldNames(e.fields)
    && forall i :: 0 <= i < |e.fields| ==> Typed(s, None, e.fields[i].value, s.graph.objects[t.name][e.fields[i].name])
  }

  ghost predicate TypedOperator(s: ContextState, hint: Option<TypeConstraint>, kind: OperatorKind,
                                operand: Expression, t: TypeConstraint)
    decreases operand, 3
  {
    match kind
    case Absolute => Typed(s, if hint.Some? then hint else Some(NUMERIC_TYPE), operand, t)
    case Trigonometric => exists u :: Typed(s, Some(NUMERIC_TYPE), operand, u) && t == TrigType(u)
    case Arithmetic => TypedHomogeneous(s, Some(NUMERIC_TYPE), operand, t)
    case ElementAt => IsPair(operand) && TypedElementAt(s, hint, operand, t)
    case Split =>
      t == ArrayOf(STRING_TYPE) && operand.Array? && exists ts :: TypedAll(s, Some(STRING_TYPE), operand, ts)
    case _ => t == BOOL_TYPE && TypedCondition(s, kind, operand)
  }

  ghost predicate TypedElementAt(s: ContextState, hint: Option<TypeConstraint>, operand: Expression, t: TypeConstraint)
    requires IsPair(operand)
    decreases operand, 0
  {
    exists u, w :: Typed(s, ArrayHint(hint), operand.elements[0], u)
      && Typed(s, Some(Scalar(Int)), operand.elements[1], w) && t == ElementAtType(hint, u)
  }

  /** The operand of an operator with a boolean result has a type. */
  ghost predicate TypedCondition(s: ContextState, kind: OperatorKind, operand: Expression)
    decreases operand, 2
  {
    match kind
    case Logical => operand.Array? && exists ts :: TypedAll(s, None, operand, ts)
    case Negation => exists u :: Typed(s, Some(BOOL_TYPE), operand, u)
    case Equality => exists u :: TypedHomogeneous(s, None, operand, u)
    case Order => exists u :: TypedHomogeneous(s, Some(COMPARABLE_TYPE), operand, u)
    case Quantifying => exists u :: Typed(s, Some(ArrayOf(BOOL_TYPE)), operand, u)
    case _ => false
  }

  /**
   Both operands have one type, a variable: it has the type of each operand as a constraint, unless
   that type already leads to the variable, and the constraint that the operator puts on operands.
   */
  ghost predicate TypedHomogeneous(s: ContextState, operandHint: Option<TypeConstraint>, operand: Expression,
                                   t: TypeConstraint)
    decreases operand, 1
  {
    && IsPair(operand) && t.Variable? && t.variable.variance.Invariant?
    && t.variable in s.graph.variables
    && exists ts :: TypedAll(s, Some(t), operand, ts) && Unites(s, operandHint, ts, t.variable)
  }

  ghost predicate Unites(s: ContextState, operandHint: Option<TypeConstraint>, ts: seq<TypeConstraint>, v: TypeVariable)
    requires v in s.graph.variables
  {
    && (operandHint.Some? ==> operandHint.value in s.graph.variables[v])
    && forall t :: t in ts ==> t in s.graph.variables[v] || LeadsTo(s.graph, t, v)
  }

  // ----- the parameters of an expression -----

  /** The native query variables that inference comes across. */
  function Mentioned(e: Expression): set<string> {
    match e
    case Leaf(_) => {}
    case Text(NativeQueryVariable(name, _)) => {name}
    case Text(PlainString(variables)) => set name | name in variables
    case Text(_) => {}
    case Array(elements) => set i, name | 0 <= i < |elements| && name in Mentioned(elements[i]) :: name
    case Document(fields) =>
      var operators := Operators(fields);
      if operators == [] then set i, name | 0 <= i < |fields| && name in Mentioned(fields[i].value) :: name
      else Mentioned(fields[operators[0]].value)
  }

  /** Every native query variable of a typed expression is a parameter. */
  lemma {:induction false} TypedRegisters(s: ContextState, hint: Option<TypeConstraint>, e: Expression,
                                          t: TypeConstraint)
    requires Typed(s, hint, e, t)
    ensures Mentioned(e) <= s.parameters.Keys
    decreases e, 1
  {
    match e
    case Leaf(_) =>
    case Text(_) =>
    case Array(_) =>
      var ts :| TypedAll(s, ElementHint(hint), e, ts);
      AllRegister(s, ElementHint(hint), e, ts);
    case Document(fields) =>
      var operators := Operators(fields);
      if operators == [] {
        forall i | 0 <= i < |fields| ensures Mentioned(fields[i].value) <= s.parameters.Keys {
          TypedRegisters(s, None, fields[i].value, s.graph.objects[t.name][fields[i].name]);
        }
      } else {
        OperandRegisters(s, hint, KindOf(fields[operators[0]].name), fields[operators[0]].value, t);
      }
  }

  lemma {:induction false} AllRegister(s: ContextState, hint: Option<TypeConstraint>, e: Expression,
                                       ts: seq<TypeConstraint>)
    requires e.Array? && TypedAll(s, hint, e, ts)
    ensures Mentioned(e) <= s.parameters.Keys
    decreases e, 0
  {
    forall i | 0 <= i < |ts| ensures Mentioned(e.elements[i]) <= s.parameters.Keys {
      TypedRegisters(s, hint, e.elements[i], ts[i]);
    }
  }

  lemma {:induction false} OperandRegisters(s: ContextState, hint: Option<TypeConstraint>, kind: OperatorKind,
                                            operand: Expression, t: TypeConstraint)
    requires TypedOperator(s, hint, kind, operand, t)
    ensures Mentioned(operand) <= s.parameters.Keys
    decreases operand, 3
  {
    if kind.ElementAt? {
      ElementAtRegisters(s, hint, operand, t);
    } else if kind.Arithmetic? {
      HomogeneousRegisters(s, Some(NUMERIC_TYPE), operand, t);
    } else if kind.Absolute? {
      TypedRegisters(s, if hint.Some? then hint else Some(NUMERIC_TYPE), operand, t);
    } else if kind.Trigonometric? {
      var u :| Typed(s, Some(NUMERIC_TYPE), operand, u);
      TypedRegisters(s, Some(NUMERIC_TYPE), operand, u);
    } else if kind.Split? {
      var ts :| TypedAll(s, Some(STRING_TYPE), operand, ts);
      AllRegister(s, Some(STRING_TYPE), operand, ts);
    } else {
      ConditionRegisters(s, kind, operand);
    }
  }

  lemma {:induction false} ElementAtRegisters(s: ContextState, hint: Option<TypeConstraint>, operand: Expression,
                                              t: TypeConstraint)
    requires IsPair(operand) && TypedElementAt(s, hint, operand, t)
    ensures Mentioned(operand) <= s.parameters.Keys
    decreases operand, 0
  {
    var u, w :| Typed(s, ArrayHint(hint), operand.elements[0], u)
      && Typed(s, Some(Scalar(Int)), operand.elements[1], w);
    TypedRegisters(s, ArrayHint(hint), operand.elements[0], u);
    TypedRegisters(s, Some(Scalar(Int)), operand.elements[1], w);
  }

  lemma {:induction false} HomogeneousRegisters(s: ContextState, operandHint: Option<TypeConstraint>,
                                                operand: Expression, t: TypeConstraint)
    requires TypedHomogeneous(s, operandHint, operand, t)
    ensures Mentioned(operand) <= s.parameters.Keys
    decreases operand, 1
  {
    var ts :| TypedAll(s, Some(t), operand, ts) && Unites(s, operandHint, ts, t.variable);
    AllRegister(s, Some(t), operand, ts);
  }

  lemma {:induction false} ConditionRegisters(s: ContextState, kind: OperatorKind, operand: Expression)
    requires TypedCondition(s, kind, operand)
    ensures Mentioned(operand) <= s.parameters.Keys
    decreases operand, 2
  {
    if kind.Logical? {
      var ts :| TypedAll(s, None, operand, ts);
      AllRegister(s, None, operand, ts);
    } else if kind.Negation? {
      var u :| Typed(s, Some(BOOL_TYPE), operand, u);
      TypedRegisters(s, Some(BOOL_TYPE), operand, u);
    } else if kind.Equality? {
      var u :| TypedHomogeneous(s, None, operand, u);
      HomogeneousRegisters(s, None, operand, u);
    } else if kind.Order? {
      var u :| TypedHomogeneous(s, Some(COMPARABLE_TYPE), operand, u);
      HomogeneousRegisters(s, Some(COMPARABLE_TYPE), operand, u);
    } else {
      var u :| Typed(s, Some(ArrayOf(BOOL_TYPE)), operand, u);
      TypedRegisters(s, Some(ArrayOf(BOOL_TYPE)), operand, u);
    }
  }

  // ----- types stay -----

  /** Nothing is forgotten. */
  ghost predicate Grows(s: ContextState, s': ContextState) {
    && s'.input == s.input
    && (forall v :: v in s.graph.variables ==> v in s'.graph.variables && s.graph.variables[v] <= s'.graph.variables[v])
    && (forall n :: n in s.graph.objects ==> n in s'.graph.objects && s'.graph.objects[n] == s.graph.objects[n])
    && (forall p :: p in s.parameters ==> p in s'.parameters && s'.parameters[p] == s.parameters[p])
  }

  lemma ReachesStays(g: Graph, g': Graph, x: Node, z: Node)
    requires Reaches(g, x, z) && forall x, y :: Edge(g, x, y) ==> Edge(g', x, y)
    ensures Reaches(g', x, z)
  {
    var path :| IsPath(g, path) && path[0] == x && path[|path| - 1] == z;
    assert IsPath(g', path);
  }

  lemma EdgesStay(s: ContextState, s': ContextState)
    requires Grows(s, s')
    ensures forall x, y :: Edge(s.graph, x, y) ==> Edge(s'.graph, x, y)
    ensures forall x, c :: c in Constraints(s.graph, x) ==> c in Constraints(s'.graph, x)
  {
    forall x, c | c in Constraints(s.graph, x) ensures c in Constraints(s'.graph, x) {
    }
  }

  lemma UnitesStays(s: ContextState, s': ContextState, operandHint: Option<TypeConstraint>,
                    ts: seq<TypeConstraint>, v: TypeVariable)
    requires Grows(s, s') && v in s.graph.variables
    requires Unites(s, operandHint, ts, v)
    ensures Unites(s', operandHint, ts, v)
  {
    EdgesStay(s, s');
    forall t | t in ts ensures t in s'.graph.variables[v] || LeadsTo(s'.graph, t, v) {
      if LeadsTo(s.graph, t, v) {
        var n :| n in Refs(t) && Reaches(s.graph, n, VariableNode(v));
        ReachesStays(s.graph, s'.graph, n, VariableNode(v));
      }
    }
  }

  lemma TypedReferenceStays(s: ContextState, s': ContextState, hint: Option<TypeConstraint>, reference: Reference,
                            t: TypeConstraint)
    requires Grows(s, s') && TypedReference(s, hint, reference, t)
    ensures TypedReference(s', hint, reference, t)
  {
    EdgesStay(s, s');
    forall name, c | HasConstraint(s, name, c) ensures HasConstraint(s', name, c) {
    }
  }

  /** As a state grows, types stay types. */
  lemma {:induction false} TypedStays(s: ContextState, s': ContextState,
                                      hint: Option<TypeConstraint>, e: Expression, t: TypeConstraint)
    requires Grows(s, s') && Typed(s, hint, e, t)
    ensures Typed(s', hint, e, t)
    decreases e, 1
  {
    match e
    case Leaf(_) =>
    case Text(reference) => TypedReferenceStays(s, s', hint, reference, t);
    case Array(_) =>
      var ts :| TypedAll(s, ElementHint(hint), e, ts) && t == Union(set i | 0 <= i < |ts| :: ts[i]);
      TypedAllStays(s, s', ElementHint(hint), e, ts);
    case Document(fields) =>
      var operators := Operators(fields);
      if operators == [] {
        forall i | 0 <= i < |fields|
          ensures Typed(s', None, fields[i].value, s'.graph.objects[t.name][fields[i].name])
        {
          TypedStays(s, s', None, fields[i].value, s.graph.objects[t.name][fields[i].name]);
        }
      } else {
        TypedOperatorStays(s, s', hint, KindOf(fields[operators[0]].name), fields[operators[0]].value, t);
      }
  }

  lemma {:induction false} TypedAllStays(s: ContextState, s': ContextState,
                                         hint: Option<TypeConstraint>, e: Expression, ts: seq<TypeConstraint>)
    requires e.Array?
    requires Grows(s, s') && TypedAll(s, hint, e, ts)
    ensures TypedAll(s', hint, e, ts)
    decreases e, 0
  {
    forall i | 0 <= i < |ts| ensures Typed(s', hint, e.elements[i], ts[i]) {
      TypedStays(s, s', hint, e.elements[i], ts[i]);
    }
  }

  lemma {:induction false} TypedHomogeneousStays(s: ContextState, s': ContextState,
                                                 operandHint: Option<TypeConstraint>, operand: Expression,
                                                 t: TypeConstraint)
    requires Grows(s, s')
    requires TypedHomogeneous(s, operandHint, operand, t)
    ensures TypedHomogeneous(s', operandHint, operand, t)
    decreases operand, 1
  {
    var ts :| TypedAll(s, Some(t), operand, ts) && Unites(s, operandHint, ts, t.variable);
    TypedAllStays(s, s', Some(t), operand, ts);
    UnitesStays(s, s', operandHint, ts, t.variable);
  }

  lemma {:induction false} TypedOperatorStays(s: ContextState, s': ContextState, hint: Option<TypeConstraint>,
                                              kind: OperatorKind, operand: Expression, t: TypeConstraint)
    requires Grows(s, s') && TypedOperator(s, hint, kind, operand, t)
    ensures TypedOperator(s', hint, kind, operand, t)
    decreases operand, 3
  {
    if kind.Absolute? {
      TypedStays(s, s', if hint.Some? then hint else Some(NUMERIC_TYPE), operand, t);
    } else if kind.Trigonometric? {
      var u :| Typed(s, Some(NUMERIC_TYPE), operand, u) && t == TrigType(u);
      TypedStays(s, s', Some(NUMERIC_TYPE), operand, u);
    } else if kind.Arithmetic? {
      TypedHomogeneousStays(s, s', Some(NUMERIC_TYPE), operand, t);
    } else if kind.ElementAt? {
      assert TypedElementAt(s, hint, operand, t);
      var u, w :| Typed(s, ArrayHint(hint), operand.elements[0], u)
        && Typed(s, Some(Scalar(Int)), operand.elements[1], w) && t == ElementAtType(hint, u);
      TypedStays(s, s', ArrayHint(hint), operand.elements[0], u);
      TypedStays(s, s', Some(Scalar(Int)), operand.elements[1], w);
    } else if kind.Split? {
      var ts :| TypedAll(s, Some(STRING_TYPE), operand, ts);
      TypedAllStays(s, s', Some(STRING_TYPE), operand, ts);
    } else {
      TypedConditionStays(s, s', kind, operand);
    }
  }

  lemma {:induction false} TypedConditionStays(s: ContextState, s': ContextState,
                                               kind: OperatorKind, operand: Expression)
    requires Grows(s, s') && TypedCondition(s, kind, operand)
    ensures TypedCondition(s', kind, operand)
    decreases operand, 2
  {
    if kind.Logical? {
      var ts :| TypedAll(s, None, operand, ts);
      TypedAllStays(s, s', None, operand, ts);
    } else if kind.Negation? {
      var u :| Typed(s, Some(BOOL_TYPE), operand, u);
      TypedStays(s, s', Some(BOOL_TYPE), operand, u);
    } else if kind.Equality? {
      var u :| TypedHomogeneous(s, None, operand, u);
      TypedHomogeneousStays(s, s', None, operand, u);
    } else if kind.Order? {
      var u :| TypedHomogeneous(s, Some(COMPARABLE_TYPE), operand, u);
      TypedHomogeneousStays(s, s', Some(COMPARABLE_TYPE), operand, u);
    } else {
      var u :| Typed(s, Some(ArrayOf(BOOL_TYPE)), operand, u);
      TypedStays(s, s', Some(ArrayOf(BOOL_TYPE)), operand, u);
    }
  }

  // ----- errors -----

  /** The error that inference ends in, if any: it depends on the expression and on whether there is an input. */
  function FirstError(e: Expression, hasInput: bool): Option<InferenceError>
    decreases e, 0
  {
    match e
    case Leaf(_) => None
    case Text(reference) => ReferenceError(reference, hasInput)
    case Array(elements) => FirstErrorFrom(e, hasInput, 0)
    case Document(fields) =>
      var operators := Operators(fields);
      if operators == [] then FirstFieldError(e, hasInput, 0)
      else if |operators| > 1 then Some(MultipleExpressionOperators)
      else
        var field := fields[operators[0]];
        OperatorError(KindOf(field.name), field.name, field.value, hasInput)
  }

  function ReferenceError(reference: Reference, hasInput: bool): Option<InferenceError> {
    match reference
    case Unparsable => Some(UnableToParseReferenceShorthand)
    case PipelineVariable(_) => Some(OtherError)
    case InputDocumentField(_, _) => if hasInput then None else Some(IncompletePipeline)
    case _ => None
  }

  function FirstErrorFrom(e: Expression, hasInput: bool, i: nat): Option<InferenceError>
    requires e.Array? && i <= |e.elements|
    decreases e, 0, |e.elements| - i
  {
    if i == |e.elements| then None
    else
      var first := FirstError(e.elements[i], hasInput);
      if first.Some? then first else FirstErrorFrom(e, hasInput, i + 1)
  }

  function FirstFieldError(e: Expression, hasInput: bool, i: nat): Option<InferenceError>
    requires e.Document? && i <= |e.fields|
    decreases e, 0, |e.fields| - i
  {
    if i == |e.fields| then None
    else
      var first := FirstError(e.fields[i].value, hasInput);
      if first.Some? then first else FirstFieldError(e, hasInput, i + 1)
  }

  function OperatorError(kind: OperatorKind, op: string, operand: Expression, hasInput: bool): Option<InferenceError>
    decreases operand, 2
  {
    match kind
    case Absolute => FirstError(operand, hasInput)
    case Trigonometric => FirstError(operand, hasInput)
    case Negation => FirstError(operand, hasInput)
    case Quantifying => FirstError(operand, hasInput)
    case Logical => TupleError(operand, hasInput)
    case Split => TupleError(operand, hasInput)
    case Unknown => Some(UnknownAggregationOperator(op))
    case _ => PairError(operand, hasInput)
  }

  function TupleError(operand: Expression, hasInput: bool): Option<InferenceError>
    decreases operand, 1
  {
    if operand.Array? then FirstErrorFrom(operand, hasInput, 0) else Some(OtherError)
  }

  function PairError(operand: Expression, hasInput: bool): Option<InferenceError>
    decreases operand, 1
  {
    if IsPair(operand) then FirstErrorFrom(operand, hasInput, 0)
    else if operand.Array? then Some(OtherError)
    else Some(ExpectedArrayExpressionArgument)
  }

  lemma PairErrors(operand: Expression, hasInput: bool)
    requires IsPair(operand)
    ensures var first := FirstError(operand.elements[0], hasInput);
      PairError(operand, hasInput) == if first.Some? then first else FirstError(operand.elements[1], hasInput)
  {
    assert FirstErrorFrom(operand, hasInput, 2) == None;
    assert FirstErrorFrom(operand, hasInput, 1) == FirstError(operand.elements[1], hasInput);
  }
}
