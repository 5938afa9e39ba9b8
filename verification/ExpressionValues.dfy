/**
 What aggregation expressions evaluate to, operator by operator, stated apart from how they are typed.
 Scalars have no payload here, so an expression may have several values: those it has for some payload.
 */
module ExpressionValues {
  import opened BsonScalars
  import opened ExpressionTyping

  datatype Value =
    | Atom(leaf: BsonLeaf)
    | List(items: seq<Value>)
    | Record(fields: map<string, Value>)

  const NULL: Value := Atom(NullValue)
  const BOOLEAN: Value := Atom(BooleanValue)

  /** The values of the parameters and the input document. */
  datatype Environment = Environment(parameters: string -> Value, input: Value)

  /** What an arithmetic operator may yield on two scalars. */
  type Arithmetic = (string, BsonLeaf, BsonLeaf, BsonLeaf) -> bool

  const ARITHMETIC: set<string> := {"$add", "$divide", "$multiply", "$subtract"}
  const TRIGONOMETRIC: set<string> := {"$sin", "$cos", "$tan", "$asin", "$acos", "$atan",
                                       "$asinh", "$acosh", "$atanh", "$sinh", "$cosh", "$tanh"}
  const EQUALITY: set<string> := {"$eq", "$ne"}
  const ORDER: set<string> := {"$gt", "$gte", "$lt", "$lte"}
  const CONNECTIVE: set<string> := {"$and", "$or"}
  const QUANTIFIER: set<string> := {"$allElementsTrue", "$anyElementTrue"}

  predicate Number(leaf: BsonLeaf) {
    leaf.DoubleValue? || leaf.Decimal128? || leaf.Int32? || leaf.Int64?
  }

  /** A missing field reads as null. */
  function At(v: Value, path: seq<string>): Value
    decreases |path|
  {
    if path == [] then v
    else if v.Record? && path[0] in v.fields then At(v.fields[path[0]], path[1..])
    else NULL
  }

  predicate NamesOperator(name: string) {
    "$" <= name
  }

  // ----- operators on values -----

  /** An absolute value is a number of the same type. */
  predicate AbsoluteValue(v: Value, result: Value) {
    v.Atom? && (Number(v.leaf) || v == NULL) && result == v
  }

  predicate Trigonometry(v: Value, result: Value) {
    && v.Atom? && (Number(v.leaf) || v == NULL)
    && result == if v == NULL then NULL else if v.leaf.Decimal128? then v else Atom(DoubleValue)
  }

  predicate Calculation(ar: Arithmetic, op: string, x: Value, y: Value, result: Value) {
    x.Atom? && y.Atom? && result.Atom? && ar(op, x.leaf, y.leaf, result.leaf)
  }

  /** Beyond its end an array reads as null. */
  predicate ElementOrNull(list: Value, index: Value, result: Value) {
    && index.Atom? && Number(index.leaf)
    && if list.List? then result in list.items || result == NULL else list == NULL && result == NULL
  }

  predicate Splitting(text: Value, separator: Value, result: Value) {
    if text == NULL || separator == NULL then result == NULL
    else
      && text == Atom(StringValue) && separator == Atom(StringValue)
      && result.List? && forall i :: 0 <= i < |result.items| ==> result.items[i] == Atom(StringValue)
  }

  // ----- evaluation -----

  ghost predicate Evaluates(ar: Arithmetic, env: Environment, e: Expression, v: Value)
    decreases e, 1
  {
    match e
    case Leaf(leaf) => v == Atom(leaf)
    case Text(NativeQueryVariable(name, _)) => v == env.parameters(name)
    case Text(InputDocumentField(name, nestedPath)) => v == At(env.input, [name] + nestedPath)
    case Text(PlainString(_)) => v == Atom(StringValue)
    case Text(_) => false
    case Array(elements) =>
      && v.List? && |v.items| == |elements|
      && forall i :: 0 <= i < |elements| ==> Evaluates(ar, env, elements[i], v.items[i])
    case Document(fields) =>
      if |fields| == 1 && NamesOperator(fields[0].name) then
        EvaluatesOperator(ar, env, fields[0].name, fields[0].value, v)
      else EvaluatesFields(ar, env, e, v)
  }

  ghost predicate EvaluatesFields(ar: Arithmetic, env: Environment, e: Expression, v: Value)
    requires e.Document?
    decreases e, 0
  {
    && v.Record? && v.fields.Keys == FieldNames(e.fields)
    && forall i :: 0 <= i < |e.fields| ==>
         !NamesOperator(e.fields[i].name) && Evaluates(ar, env, e.fields[i].value, v.fields[e.fields[i].name])
  }

  /** An operator with one argument takes it as it is, or as the only element of an array. */
  ghost predicate EvaluatesArgument(ar: Arithmetic, env: Environment, operand: Expression, v: Value)
    decreases operand, 2
  {
    if operand.Array? then |operand.elements| == 1 && Evaluates(ar, env, operand.elements[0], v)
    else Evaluates(ar, env, operand, v)
  }

  ghost predicate EvaluatesPair(ar: Arithmetic, env: Environment, operand: Expression, x: Value, y: Value)
    decreases operand, 2
  {
    && operand.Array? && |operand.elements| == 2
    && Evaluates(ar, env, operand.elements[0], x) && Evaluates(ar, env, operand.elements[1], y)
  }

  ghost predicate EvaluatesOperator(ar: Arithmetic, env: Environment, op: string, operand: Expression, v: Value)
    decreases operand, 3
  {
    if op == "$abs" then exists x :: EvaluatesArgument(ar, env, operand, x) && AbsoluteValue(x, v)
    else if op in TRIGONOMETRIC then exists x :: EvaluatesArgument(ar, env, operand, x) && Trigonometry(x, v)
    else if op in ARITHMETIC then exists x, y :: EvaluatesPair(ar, env, operand, x, y) && Calculation(ar, op, x, y, v)
    else if op in CONNECTIVE then
      v == BOOLEAN && operand.Array?
      && forall i :: 0 <= i < |operand.elements| ==> exists x :: Evaluates(ar, env, operand.elements[i], x)
    else if op == "$not" then v == BOOLEAN && exists x :: EvaluatesArgument(ar, env, operand, x)
    else if op in EQUALITY || op in ORDER then v == BOOLEAN && exists x, y :: EvaluatesPair(ar, env, operand, x, y)
    else if op in QUANTIFIER then v == BOOLEAN && exists x :: EvaluatesArgument(ar, env, operand, x) && x.List?
    else if op == "$arrayElemAt" then exists x, y :: EvaluatesPair(ar, env, operand, x, y) && ElementOrNull(x, y, v)
    else op == "$split" && exists x, y :: EvaluatesPair(ar, env, operand, x, y) && Splitting(x, y, v)
  }
}
