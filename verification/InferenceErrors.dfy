/**
 Which error the inference of an expression ends in: that of the first faulty part of the expression, in
 the order in which the parts are visited. Faults are told from the part alone.
 */
module InferenceErrors {
  import opened Options
  import opened ExpressionTyping
  import opened ExpressionValues

  /** The operators that take two operands, those that take an array of operands, and those that take one. */
  const PAIRED: set<string> := ARITHMETIC + EQUALITY + ORDER + {"$arrayElemAt"}
  const LISTED: set<string> := CONNECTIVE + {"$split"}
  const SINGLE: set<string> := TRIGONOMETRIC + QUANTIFIER + {"$abs", "$not"}

  /** The first key that names an operator. */
  function FirstOperator(fields: seq<ExpressionField>): (i: nat)
    ensures i <= |fields| && (i < |fields| ==> NamesOperator(fields[i].name))
    ensures forall k :: 0 <= k < i ==> !NamesOperator(fields[k].name)
  {
    if fields == [] || NamesOperator(fields[0].name) then 0 else 1 + FirstOperator(fields[1..])
  }

  /** Several keys name operators. */
  predicate Ambiguous(fields: seq<ExpressionField>) {
    exists i, j :: 0 <= i < j < |fields| && NamesOperator(fields[i].name) && NamesOperator(fields[j].name)
  }

  /** The expression and its parts, in the order in which they are visited. */
  function Parts(e: Expression): seq<Expression>
    decreases e, 1
  {
    match e
    case Leaf(_) => [e]
    case Text(_) => [e]
    case Array(_) => [e] + PartsFrom(e, 0)
    case Document(fields) =>
      var i := FirstOperator(fields);
      if i == |fields| then [e] + PartsFrom(e, 0)
      else if Ambiguous(fields) then [e]
      else [e] + Parts(fields[i].value)
  }

  function ChildCount(e: Expression): nat {
    match e
    case Array(elements) => |elements|
    case Document(fields) => |fields|
    case _ => 0
  }

  function PartsFrom(e: Expression, i: nat): seq<Expression>
    requires i <= ChildCount(e)
    decreases e, 0, ChildCount(e) - i
  {
    if i == ChildCount(e) then []
    else if e.Array? then Parts(e.elements[i]) + PartsFrom(e, i + 1)
    else Parts(e.fields[i].value) + PartsFrom(e, i + 1)
  }

  /** What is wrong with a part itself. */
  function Fault(e: Expression, hasInput: bool): Option<InferenceError> {
    match e
    case Text(Unparsable) => Some(UnableToParseReferenceShorthand)
    case Text(PipelineVariable(_)) => Some(OtherError)
    case Text(InputDocumentField(_, _)) => if hasInput then None else Some(IncompletePipeline)
    case Document(fields) =>
      var i := FirstOperator(fields);
      if i == |fields| then None
      else if Ambiguous(fields) then Some(MultipleExpressionOperators)
      else OperandFault(fields[i].name, fields[i].value)
    case _ => None
  }

  function OperandFault(op: string, operand: Expression): Option<InferenceError> {
    if op in PAIRED then
      if !operand.Array? then Some(ExpectedArrayExpressionArgument)
      else if |operand.elements| != 2 then Some(OtherError)
      else None
    else if op in LISTED then if operand.Array? then None else Some(OtherError)
    else if op in SINGLE then None
    else Some(UnknownAggregationOperator(op))
  }

  /** The first fault of some parts. */
  function FirstFault(parts: seq<Expression>, hasInput: bool): Option<InferenceError> {
    if parts == [] then None
    else if Fault(parts[0], hasInput).Some? then Fault(parts[0], hasInput)
    else FirstFault(parts[1..], hasInput)
  }

  lemma {:induction false} FirstFaultAppend(a: seq<Expression>, b: seq<Expression>, hasInput: bool)
    ensures FirstFault(a + b, hasInput)
         == if FirstFault(a, hasInput).Some? then FirstFault(a, hasInput) else FirstFault(b, hasInput)
  {
    if a == [] {
      assert a + b == b;
    } else {
      assert (a + b)[1..] == a[1..] + b;
      FirstFaultAppend(a[1..], b, hasInput);
    }
  }

  lemma FirstFaultCons(e: Expression, parts: seq<Expression>, hasInput: bool)
    ensures FirstFault([e] + parts, hasInput)
         == if Fault(e, hasInput).Some? then Fault(e, hasInput) else FirstFault(parts, hasInput)
  {
    assert ([e] + parts)[1..] == parts;
  }

  // ----- the operators of a document -----

  lemma {:induction false} OperatorsExact(fields: seq<ExpressionField>)
    ensures forall k: nat :: k in Operators(fields) <==> k < |fields| && NamesOperator(fields[k].name)
    ensures forall i, j :: 0 <= i < j < |Operators(fields)| ==> Operators(fields)[i] < Operators(fields)[j]
  {
    if fields != [] {
      var init := fields[..|fields| - 1];
      OperatorsExact(init);
      forall k: nat ensures k in Operators(fields) <==> k < |fields| && NamesOperator(fields[k].name) {
        assert k < |init| ==> init[k] == fields[k];
        assert k in Operators(fields) <==> k in Operators(init) || (k == |init| && NamesOperator(fields[k].name));
      }
    }
  }

  lemma OperatorsCounted(fields: seq<ExpressionField>)
    ensures Operators(fields) == [] <==> FirstOperator(fields) == |fields|
    ensures |Operators(fields)| > 1 <==> Ambiguous(fields)
    ensures |Operators(fields)| == 1 ==> Operators(fields)[0] == FirstOperator(fields)
  {
    var positions, first := Operators(fields), FirstOperator(fields);
    OperatorsExact(fields);
    if |positions| > 1 {
      assert positions[0] in positions && positions[1] in positions && positions[0] < positions[1];
      assert Ambiguous(fields);
    }
    if i, j :| 0 <= i < j < |fields| && NamesOperator(fields[i].name) && NamesOperator(fields[j].name) {
      assert i in positions && j in positions;
    }
    if positions != [] {
      assert positions[0] in positions;
      assert first in positions;
    }
  }

  lemma KindsExact(op: string)
    ensures op in PAIRED <==>
      KindOf(op).Arithmetic? || KindOf(op).Equality? || KindOf(op).Order? || KindOf(op).ElementAt?
    ensures op in LISTED <==> KindOf(op).Logical? || KindOf(op).Split?
    ensures op in SINGLE <==>
      KindOf(op).Absolute? || KindOf(op).Trigonometric? || KindOf(op).Negation? || KindOf(op).Quantifying?
  {
  }

  // ----- the error of inference -----

  lemma {:induction false} FirstErrorExact(e: Expression, hasInput: bool)
    ensures FirstError(e, hasInput) == FirstFault(Parts(e), hasInput)
    decreases e, 1
  {
    match e
    case Leaf(_) => FirstFaultCons(e, [], hasInput);
    case Text(_) => FirstFaultCons(e, [], hasInput);
    case Array(_) =>
      ElementErrorsExact(e, hasInput, 0);
      FirstFaultCons(e, PartsFrom(e, 0), hasInput);
    case Document(fields) =>
      OperatorsCounted(fields);
      var i := FirstOperator(fields);
      if i == |fields| {
        FieldErrorsExact(e, hasInput, 0);
        FirstFaultCons(e, PartsFrom(e, 0), hasInput);
      } else if Ambiguous(fields) {
        FirstFaultCons(e, [], hasInput);
      } else {
        OperandErrorsExact(fields[i].name, fields[i].value, hasInput);
        FirstFaultCons(e, Parts(fields[i].value), hasInput);
      }
  }

  lemma {:induction false} ElementErrorsExact(e: Expression, hasInput: bool, i: nat)
    requires e.Array? && i <= |e.elements|
    ensures FirstErrorFrom(e, hasInput, i) == FirstFault(PartsFrom(e, i), hasInput)
    decreases e, 0, |e.elements| - i
  {
    if i < |e.elements| {
      FirstErrorExact(e.elements[i], hasInput);
      ElementErrorsExact(e, hasInput, i + 1);
      FirstFaultAppend(Parts(e.elements[i]), PartsFrom(e, i + 1), hasInput);
    }
  }

  lemma {:induction false} FieldErrorsExact(e: Expression, hasInput: bool, i: nat)
    requires e.Document? && i <= |e.fields|
    ensures FirstFieldError(e, hasInput, i) == FirstFault(PartsFrom(e, i), hasInput)
    decreases e, 0, |e.fields| - i
  {
    if i < |e.fields| {
      FirstErrorExact(e.fields[i].value, hasInput);
      FieldErrorsExact(e, hasInput, i + 1);
      FirstFaultAppend(Parts(e.fields[i].value), PartsFrom(e, i + 1), hasInput);
    }
  }

  lemma {:induction false} OperandErrorsExact(op: string, operand: Expression, hasInput: bool)
    ensures OperatorError(KindOf(op), op, operand, hasInput)
         == if OperandFault(op, operand).Some? then OperandFault(op, operand) else FirstFault(Parts(operand), hasInput)
    decreases operand, 2
  {
    KindsExact(op);
    FirstErrorExact(operand, hasInput);
    if operand.Array? {
      ElementErrorsExact(operand, hasInput, 0);
      FirstFaultCons(operand, PartsFrom(operand, 0), hasInput);
    }
  }
}
