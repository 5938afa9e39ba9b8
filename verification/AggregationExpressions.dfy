/**
 Type inference for aggregation expressions. On admissible expressions every run keeps the reference
 graph of the context acyclic, so the occurs check always terminates, and its result types the
 expression. Expressions without operators need no occurs check and are inferred in every context.
 */
module AggregationExpressions {
  import opened Options
  import opened BsonScalars
  import SchemaTypes
  import opened TypeConstraints
  import opened ConstraintGraphs
  import opened TypeNames
  import opened PipelineTypeContexts
  import opened ExpressionTyping
  import opened ExpressionRuns

  // ----- what inference promises -----

  predicate HintUsable(s: ContextState, hint: Option<TypeConstraint>) {
    hint.Some? ==> IsHint(s, hint.value)
  }

  /** The state is extended at the type name, with parameters and object types only for what the expression holds. */
  ghost predicate Framed(s: ContextState, s': ContextState, desired: string, e: Expression) {
    && Extends(s, s', desired) && s'.parameters.Keys <= s.parameters.Keys + Mentioned(e)
    && (!Generates(e) ==> s'.graph.objects == s.graph.objects)
  }

  ghost predicate Inferred(s: ContextState, s': ContextState, configured: set<string>, desired: string,
                           hint: Option<TypeConstraint>, e: Expression, r: Result<TypeConstraint>) {
    && Framed(s, s', desired, e)
    && Fails(FirstError(e, s.input.Some?), r)
    && (r.Ok? ==> KnownConstraint(s'.graph, configured, r.value) && Typed(s', hint, e, r.value))
  }

  ghost predicate InferredAll(s: ContextState, s': ContextState, configured: set<string>, desired: string,
                              hint: Option<TypeConstraint>, e: Expression, r: Result<seq<TypeConstraint>>)
    requires e.Array?
  {
    && Framed(s, s', desired, e)
    && Fails(FirstErrorFrom(e, s.input.Some?, 0), r)
    && (r.Ok? ==> TypedAll(s', hint, e, r.value))
    && (r.Ok? ==> forall t :: t in r.value ==> KnownConstraint(s'.graph, configured, t))
  }

  ghost predicate InferredOperator(s: ContextState, s': ContextState, configured: set<string>, desired: string,
                                   hint: Option<TypeConstraint>, kind: OperatorKind, op: string, operand: Expression,
                                   r: Result<TypeConstraint>) {
    && Framed(s, s', desired, operand)
    && Fails(OperatorError(kind, op, operand, s.input.Some?), r)
    && (r.Ok? ==> KnownConstraint(s'.graph, configured, r.value) && TypedOperator(s', hint, kind, operand, r.value))
  }

  /** The result is an error exactly if one is expected, and then that one. */
  predicate Fails<T>(expected: Option<InferenceError>, r: Result<T>) {
    match r
    case Ok(_) => expected == None
    case Err(x) => expected == Some(x)
  }

  // ----- steps -----

  lemma ExtendsGrows(s: ContextState, s': ContextState, desired: string)
    requires Extends(s, s', desired)
    ensures Grows(s, s')
  {
  }

  lemma HintStaysUsable(s: ContextState, s': ContextState, desired: string, configured: set<string>, rank: Rank,
                        hint: Option<TypeConstraint>)
    requires Consistent(s, configured, rank) && Extends(s, s', desired) && HintUsable(s, hint)
    ensures HintUsable(s', hint)
  {
    if hint.Some? {
      HintStays(s, s', desired, configured, rank, hint.value);
    }
  }

  lemma FramedTransitive(s: ContextState, s': ContextState, s'': ContextState, desired: string, e: Expression,
                         configured: set<string>, rank: Rank)
    requires Consistent(s, configured, rank)
    requires Framed(s, s', desired, e) && Framed(s', s'', desired, e)
    ensures Framed(s, s'', desired, e)
  {
    ExtendsTransitive(s, s', s'', desired, configured, rank);
  }

  /** The first elements of an array are inferred. */
  ghost predicate Progress(s: ContextState, s': ContextState, configured: set<string>, desired: string,
                           hint: Option<TypeConstraint>, e: Expression, ts: seq<TypeConstraint>) {
    && e.Array? && |ts| <= |e.elements|
    && Framed(s, s', desired, e)
    && FirstErrorFrom(e, s.input.Some?, 0) == FirstErrorFrom(e, s.input.Some?, |ts|)
    && TypedSoFar(s', configured, hint, e.elements, ts)
  }

  ghost predicate TypedSoFar(s: ContextState, configured: set<string>, hint: Option<TypeConstraint>,
                             es: seq<Expression>, ts: seq<TypeConstraint>)
    requires |ts| <= |es|
  {
    && (forall i :: 0 <= i < |ts| ==> Typed(s, hint, es[i], ts[i]))
    && (forall t :: t in ts ==> KnownConstraint(s.graph, configured, t))
  }

  lemma Start(s: ContextState, configured: set<string>, desired: string, hint: Option<TypeConstraint>, e: Expression)
    requires e.Array?
    ensures Progress(s, s, configured, desired, hint, e, [])
  {
  }

  lemma ElementMentioned(e: Expression, i: nat)
    requires e.Array? && i < |e.elements|
    ensures Mentioned(e.elements[i]) <= Mentioned(e) && (Generates(e.elements[i]) ==> Generates(e))
  {
  }

  /** Another element is inferred in the frame of the array. */
  lemma AdvanceFrame(s: ContextState, s': ContextState, s'': ContextState, configured: set<string>, rank: Rank,
                     desired: string, e: Expression, i: nat)
    requires Consistent(s, configured, rank) && e.Array? && i < |e.elements|
    requires Framed(s, s', desired, e) && Framed(s', s'', desired, e.elements[i])
    ensures Framed(s, s'', desired, e) && Grows(s', s'')
  {
    ElementMentioned(e, i);
    FramedTransitive(s, s', s'', desired, e, configured, rank);
    ExtendsGrows(s', s'', desired);
  }

  /** The types of the earlier elements stay types. */
  lemma AdvanceTypes(s': ContextState, s'': ContextState, configured: set<string>, hint: Option<TypeConstraint>,
                     es: seq<Expression>, ts: seq<TypeConstraint>)
    requires Grows(s', s'') && |ts| <= |es| && TypedSoFar(s', configured, hint, es, ts)
    ensures TypedSoFar(s'', configured, hint, es, ts)
  {
    forall i | 0 <= i < |ts| ensures Typed(s'', hint, es[i], ts[i]) {
      TypedStays(s', s'', hint, es[i], ts[i]);
    }
    forall t | t in ts ensures KnownConstraint(s''.graph, configured, t) {
      KnownGrows(s', s'', configured, t);
    }
  }

  /** The type of the next element joins them. */
  lemma OneMoreType(s: ContextState, configured: set<string>, hint: Option<TypeConstraint>, es: seq<Expression>,
                    ts: seq<TypeConstraint>, t: TypeConstraint)
    requires |ts| < |es| && Typed(s, hint, es[|ts|], t) && KnownConstraint(s.graph, configured, t)
    requires TypedSoFar(s, configured, hint, es, ts)
    ensures TypedSoFar(s, configured, hint, es, ts + [t])
  {
  }

  lemma NoErrorYet(e: Expression, hasInput: bool, i: nat)
    requires e.Array? && i < |e.elements| && FirstError(e.elements[i], hasInput).None?
    ensures FirstErrorFrom(e, hasInput, i) == FirstErrorFrom(e, hasInput, i + 1)
  {
  }

  lemma Advance(s: ContextState, s': ContextState, s'': ContextState, configured: set<string>, rank: Rank,
                desired: string, hint: Option<TypeConstraint>, e: Expression, ts: seq<TypeConstraint>,
                t: TypeConstraint)
    requires Consistent(s, configured, rank)
    requires Progress(s, s', configured, desired, hint, e, ts) && |ts| < |e.elements|
    requires Inferred(s', s'', configured, desired, hint, e.elements[|ts|], Ok(t))
    ensures Progress(s, s'', configured, desired, hint, e, ts + [t])
  {
    assert Framed(s, s'', desired, e) && Grows(s', s'') by {
      AdvanceFrame(s, s', s'', configured, rank, desired, e, |ts|);
    }
    assert TypedSoFar(s'', configured, hint, e.elements, ts + [t]) by {
      AdvanceTypes(s', s'', configured, hint, e.elements, ts);
      OneMoreType(s'', configured, hint, e.elements, ts, t);
    }
    assert FirstErrorFrom(e, s.input.Some?, 0) == FirstErrorFrom(e, s.input.Some?, |ts + [t]|) by {
      NoErrorYet(e, s.input.Some?, |ts|);
    }
  }

  lemma AdvanceFails(s: ContextState, s': ContextState, s'': ContextState, configured: set<string>, rank: Rank,
                     desired: string, hint: Option<TypeConstraint>, e: Expression, ts: seq<TypeConstraint>,
                     x: InferenceError)
    requires Consistent(s, configured, rank)
    requires Progress(s, s', configured, desired, hint, e, ts) && |ts| < |e.elements|
    requires Inferred(s', s'', configured, desired, hint, e.elements[|ts|], Err(x))
    ensures InferredAll(s, s'', configured, desired, hint, e, Err(x))
  {
    ElementMentioned(e, |ts|);
    FramedTransitive(s, s', s'', desired, e, configured, rank);
  }

  /** One more element is inferred, or ends in an error. */
  lemma ElementStep(s: ContextState, s': ContextState, s'': ContextState, configured: set<string>, rank: Rank,
                    rank': Rank, desired: string, hint: Option<TypeConstraint>, e: Expression,
                    ts: seq<TypeConstraint>, r: Result<TypeConstraint>)
    requires Consistent(s, configured, rank) && Consistent(s', configured, rank') && HintUsable(s', hint)
    requires Progress(s, s', configured, desired, hint, e, ts) && |ts| < |e.elements|
    requires Inferred(s', s'', configured, desired, hint, e.elements[|ts|], r)
    ensures r.Ok? ==> Progress(s, s'', configured, desired, hint, e, ts + [r.value]) && HintUsable(s'', hint)
    ensures r.Err? ==> InferredAll(s, s'', configured, desired, hint, e, Err(r.error))
  {
    match r
    case Ok(t) =>
      Advance(s, s', s'', configured, rank, desired, hint, e, ts, t);
      HintStaysUsable(s', s'', desired, configured, rank', hint);
    case Err(x) =>
      AdvanceFails(s, s', s'', configured, rank, desired, hint, e, ts, x);
  }

  /** Inference keeps the graph acyclic. */
  ghost predicate Safe(context: PipelineTypeContext, hint: Option<TypeConstraint>, e: Expression)
    reads context
  {
    context.Valid() && HintUsable(context.State(), hint) && Admissible(e, context.configured)
  }

  /** Inference ends, with a type and without an occurs check, whether or not the graph is acyclic. */
  predicate Runnable(context: PipelineTypeContext, e: Expression)
    reads context
  {
    Registered(context.State()) && Plain(e)
  }

  ghost predicate RunsTo(s: ContextState, s': ContextState, configured: set<string>, desired: string,
                         hint: Option<TypeConstraint>, e: Expression, r: Result<TypeConstraint>) {
    r.Ok? && Runs(s, configured, desired, hint, e, s', r.value)
  }

  // ----- inference -----

  method InferType(context: PipelineTypeContext, desired: string, hint: Option<TypeConstraint>, e: Expression,
                   ghost safe: bool)
    returns (r: Result<TypeConstraint>)
    requires if safe then Safe(context, hint, e) else Runnable(context, e)
    modifies context
    ensures safe ==> context.Valid()
    ensures safe ==> Inferred(old(context.State()), context.State(), context.configured, desired, hint, e, r)
    ensures !safe ==> Registered(context.State())
    ensures !safe ==> RunsTo(old(context.State()), context.State(), context.configured, desired, hint, e, r)
    decreases e, 5
  {
    match e
    case Leaf(leaf) =>
      ExtendsReflexive(context.State(), desired);
      r := Ok(LeafType(leaf));
    case Text(reference) =>
      r := InferReference(context, desired, hint, reference, safe);
    case Array(_) =>
      r := InferArray(context, desired, hint, e);
    case Document(_) =>
      r := InferExpressionDocument(context, desired, hint, e, safe);
  }

  method InferElements(context: PipelineTypeContext, desired: string, hint: Option<TypeConstraint>, e: Expression)
    returns (r: Result<seq<TypeConstraint>>)
    requires e.Array?
    requires context.Valid() && HintUsable(context.State(), hint) && Admissible(e, context.configured)
    modifies context
    ensures context.Valid()
    ensures InferredAll(old(context.State()), context.State(), context.configured, desired, hint, e, r)
    decreases e, 0
  {
    ghost var s, rank := context.State(), context.rank;
    var ts := [];
    Start(s, context.configured, desired, hint, e);
    for i := 0 to |e.elements|
      invariant context.Valid() && |ts| == i && HintUsable(context.State(), hint)
      invariant Progress(s, context.State(), context.configured, desired, hint, e, ts)
    {
      ghost var s', rank' := context.State(), context.rank;
      var element := InferType(context, desired, hint, e.elements[i], true);
      ElementStep(s, s', context.State(), context.configured, rank, rank', desired, hint, e, ts, element);
      if element.Err? { return Err(element.error); }
      ts := ts + [element.value];
    }
    r := Ok(ts);
  }

  method InferArray(context: PipelineTypeContext, desired: string, hint: Option<TypeConstraint>, e: Expression)
    returns (r: Result<TypeConstraint>)
    requires e.Array?
    requires context.Valid() && HintUsable(context.State(), hint) && Admissible(e, context.configured)
    modifies context
    ensures context.Valid()
    ensures Inferred(old(context.State()), context.State(), context.configured, desired, hint, e, r)
    decreases e, 4
  {
    var elements := InferElements(context, desired, ElementHint(hint), e);
    if elements.Err? { return Err(elements.error); }
    var ts := elements.value;
    r := Ok(Union(set i | 0 <= i < |ts| :: ts[i]));
    assert TypedAll(context.State(), ElementHint(hint), e, ts);
    UnionKnown(context.State().graph, context.configured, ts);
  }

  lemma UnionKnown(g: Graph, configured: set<string>, ts: seq<TypeConstraint>)
    requires forall t :: t in ts ==> KnownConstraint(g, configured, t)
    ensures KnownConstraint(g, configured, Union(set i | 0 <= i < |ts| :: ts[i]))
  {
    var types := set i | 0 <= i < |ts| :: ts[i];
    forall n | n in Refs(Union(types)) ensures Known(g, configured, n) {
      var t :| t in types && n in Refs(t);
      assert KnownConstraint(g, configured, t);
    }
  }

  method InferTuple(context: PipelineTypeContext, desired: string, hint: Option<TypeConstraint>, operand: Expression)
    returns (r: Result<seq<TypeConstraint>>)
    requires context.Valid() && HintUsable(context.State(), hint) && Admissible(operand, context.configured)
    modifies context
    ensures context.Valid()
    ensures Framed(old(context.State()), context.State(), desired, operand)
    ensures Fails(TupleError(operand, old(context.inputDocType).Some?), r)
    ensures r.Ok? ==> operand.Array? && TypedAll(context.State(), hint, operand, r.value)
    decreases operand, 4
  {
    if operand.Array? {
      r := InferElements(context, desired, hint, operand);
    } else {
      ExtendsReflexive(context.State(), desired);
      r := Err(OtherError);
    }
  }

  /** At most one key may be an operator; the operator's operand is all that counts then. */
  method InferExpressionDocument(context: PipelineTypeContext, desired: string, hint: Option<TypeConstraint>,
                                 e: Expression, ghost safe: bool)
    returns (r: Result<TypeConstraint>)
    requires e.Document?
    requires if safe then Safe(context, hint, e) else Runnable(context, e)
    modifies context
    ensures safe ==> context.Valid()
    ensures safe ==> Inferred(old(context.State()), context.State(), context.configured, desired, hint, e, r)
    ensures !safe ==> Registered(context.State())
    ensures !safe ==> RunsTo(old(context.State()), context.State(), context.configured, desired, hint, e, r)
    decreases e, 4
  {
    var operators := Operators(e.fields);
    if |operators| > 1 {
      ExtendsReflexive(context.State(), desired);
      r := Err(MultipleExpressionOperators);
    } else if |operators| == 1 {
      var field := e.fields[operators[0]];
      r := InferOperator(context, desired, hint, KindOf(field.name), field.name, field.value);
    } else {
      r := InferDocument(context, desired, hint, e, safe);
    }
  }

  method InferOperator(context: PipelineTypeContext, desired: string, hint: Option<TypeConstraint>,
                       kind: OperatorKind, op: string, operand: Expression)
    returns (r: Result<TypeConstraint>)
    requires context.Valid() && HintUsable(context.State(), hint) && Admissible(operand, context.configured)
    modifies context
    ensures context.Valid()
    ensures InferredOperator(old(context.State()), context.State(), context.configured, desired, hint, kind, op,
                             operand, r)
    decreases operand, 8
  {
    ConstantsUsable(context.State());
    match kind
    case Absolute =>
      r := InferNumeric(context, desired, hint, kind, op, operand);
    case Trigonometric =>
      r := InferNumeric(context, desired, hint, kind, op, operand);
    case Arithmetic =>
      r := InferNumeric(context, desired, hint, kind, op, operand);
    case ElementAt =>
      r := InferElementAt(context, desired, hint, operand);
    case Split =>
      var ts := InferTuple(context, desired, Some(STRING_TYPE), operand);
      r := if ts.Ok? then Ok(ArrayOf(STRING_TYPE)) else Err(ts.error);
    case _ =>
      r := InferCondition(context, desired, kind, op, operand);
  }

  method InferNumeric(context: PipelineTypeContext, desired: string, hint: Option<TypeConstraint>, kind: OperatorKind,
                      op: string, operand: Expression)
    returns (r: Result<TypeConstraint>)
    requires kind.Absolute? || kind.Trigonometric? || kind.Arithmetic?
    requires context.Valid() && HintUsable(context.State(), hint) && Admissible(operand, context.configured)
    modifies context
    ensures context.Valid()
    ensures InferredOperator(old(context.State()), context.State(), context.configured, desired, hint, kind, op,
                             operand, r)
    decreases operand, 7
  {
    ConstantsUsable(context.State());
    match kind
    case Absolute =>
      r := InferType(context, desired, if hint.Some? then hint else Some(NUMERIC_TYPE), operand, true);
    case Trigonometric =>
      var t := InferType(context, desired, Some(NUMERIC_TYPE), operand, true);
      r := if t.Ok? then Ok(TrigType(t.value)) else t;
    case Arithmetic =>
      r := InferHomogeneous(context, desired, Some(NUMERIC_TYPE), operand);
  }

  lemma ConstantsUsable(s: ContextState)
    ensures HintUsable(s, Some(NUMERIC_TYPE)) && HintUsable(s, Some(COMPARABLE_TYPE))
    ensures HintUsable(s, Some(STRING_TYPE)) && HintUsable(s, Some(BOOL_TYPE))
    ensures HintUsable(s, Some(ArrayOf(BOOL_TYPE)))
    ensures Refs(NUMERIC_TYPE) == {} && Refs(COMPARABLE_TYPE) == {}
    ensures Refs(BOOL_TYPE) == {} && Refs(ArrayOf(STRING_TYPE)) == {}
  {
    NoRefs();
    assert Refs(STRING_TYPE) == {};
  }

  /** The operators with a boolean result, and unknown ones. */
  method InferCondition(context: PipelineTypeContext, desired: string, kind: OperatorKind, op: string,
                        operand: Expression)
    returns (r: Result<TypeConstraint>)
    requires context.Valid() && Admissible(operand, context.configured)
    requires kind.Logical? || kind.Negation? || kind.Equality? || kind.Order? || kind.Quantifying? || kind.Unknown?
    modifies context
    ensures context.Valid()
    ensures Framed(old(context.State()), context.State(), desired, operand)
    ensures Fails(OperatorError(kind, op, operand, old(context.inputDocType).Some?), r)
    ensures r.Ok? ==> r.value == BOOL_TYPE && TypedCondition(context.State(), kind, operand)
    decreases operand, 7
  {
    ConstantsUsable(context.State());
    match kind
    case Logical =>
      var ts := InferTuple(context, desired, None, operand);
      r := if ts.Ok? then Ok(BOOL_TYPE) else Err(ts.error);
    case Negation =>
      var t := InferType(context, desired, Some(BOOL_TYPE), operand, true);
      r := if t.Ok? then Ok(BOOL_TYPE) else t;
    case Equality =>
      var t := InferHomogeneous(context, desired, None, operand);
      r := if t.Ok? then Ok(BOOL_TYPE) else t;
    case Order =>
      var t := InferHomogeneous(context, desired, Some(COMPARABLE_TYPE), operand);
      r := if t.Ok? then Ok(BOOL_TYPE) else t;
    case Quantifying =>
      var t := InferType(context, desired, Some(ArrayOf(BOOL_TYPE)), operand, true);
      r := if t.Ok? then Ok(BOOL_TYPE) else t;
    case Unknown =>
      ExtendsReflexive(context.State(), desired);
      r := Err(UnknownAggregationOperator(op));
  }

  method InferElementAt(context: PipelineTypeContext, desired: string, hint: Option<TypeConstraint>,
                        operand: Expression)
    returns (r: Result<TypeConstraint>)
    requires context.Valid() && HintUsable(context.State(), hint) && Admissible(operand, context.configured)
    modifies context
    ensures context.Valid()
    ensures Framed(old(context.State()), context.State(), desired, operand)
    ensures Fails(PairError(operand, old(context.inputDocType).Some?), r)
    ensures r.Ok? ==>
      IsPair(operand) && KnownConstraint(context.State().graph, context.configured, r.value)
      && TypedElementAt(context.State(), hint, operand, r.value)
    decreases operand, 7
  {
    var pair := TwoParameterOperand(operand);
    ghost var s, rank := context.State(), context.rank;
    ExtendsReflexive(s, desired);
    if pair.Err? { return Err(pair.error); }
    PairErrors(operand, context.inputDocType.Some?);
    var elementsType := InferType(context, desired + "_" + "arrayElemAt_array", ArrayHint(hint), pair.value.0, true);
    ghost var s' := context.State();
    NestedFrame(s, s', desired, "arrayElemAt_array", operand, 0);
    if elementsType.Err? { return elementsType; }
    var indexType := InferType(context, desired + "_" + "arrayElemAt_idx", Some(Scalar(Int)), pair.value.1, true);
    NestedFrame(s', context.State(), desired, "arrayElemAt_idx", operand, 1);
    FramedTransitive(s, s', context.State(), desired, operand, context.configured, rank);
    if indexType.Err? { return indexType; }
    ElementAtTyped(s, s', context.State(), desired, context.configured, rank, hint, operand, elementsType.value,
                   indexType.value);
    r := Ok(ElementAtType(hint, elementsType.value));
  }

  lemma NestedFrame(s: ContextState, s': ContextState, desired: string, nested: string, e: Expression, i: nat)
    requires e.Array? && i < |e.elements| && nested != "" && !('0' <= nested[0] <= '9')
    requires Framed(s, s', desired + "_" + nested, e.elements[i])
    ensures Framed(s, s', desired, e)
  {
    ElementMentioned(e, i);
    LetterFirst(nested);
    NestedUnder(desired, nested);
    ExtendsWiden(s, s', desired + "_" + nested, desired);
  }

  function TwoParameterOperand(operand: Expression): (r: Result<(Expression, Expression)>)
    ensures match r
            case Ok((a, b)) => operand == Array([a, b])
            case Err(x) => !IsPair(operand) && forall hasInput :: PairError(operand, hasInput) == Some(x)
  {
    if !operand.Array? then Err(ExpectedArrayExpressionArgument)
    else if |operand.elements| != 2 then Err(OtherError)
    else Ok((operand.elements[0], operand.elements[1]))
  }

  lemma LetterFirst(field: string)
    requires field != "" && !('0' <= field[0] <= '9')
    ensures !CounterLike(field)
  {
    assert forall i :: 0 < i <= |field| ==> field[..i][0] == field[0];
  }

  lemma NestedUnder(desired: string, field: string)
    requires !CounterLike(field)
    ensures forall n :: Under(desired + "_" + field, n) ==> Under(desired, n)
  {
    forall n | Under(desired + "_" + field, n) ensures Under(desired, n) {
      NestedNames(desired, field, n);
    }
  }

  lemma ElementAtTyped(s: ContextState, s': ContextState, s'': ContextState, desired: string, configured: set<string>,
                       rank: Rank, hint: Option<TypeConstraint>, operand: Expression, u: TypeConstraint,
                       w: TypeConstraint)
    requires IsPair(operand) && HintUsable(s, hint)
    requires Consistent(s, configured, rank) && Extends(s, s', desired) && Extends(s', s'', desired)
    requires Typed(s', ArrayHint(hint), operand.elements[0], u) && KnownConstraint(s'.graph, configured, u)
    requires Typed(s'', Some(Scalar(Int)), operand.elements[1], w)
    ensures KnownConstraint(s''.graph, configured, ElementAtType(hint, u))
    ensures TypedElementAt(s'', hint, operand, ElementAtType(hint, u))
  {
    ExtendsGrows(s', s'', desired);
    TypedStays(s', s'', ArrayHint(hint), operand.elements[0], u);
    KnownStays(s', s'', desired, configured, u);
    if hint.Some? {
      HintStaysKnown(s, s', s'', desired, configured, rank, hint.value);
    }
    assert KnownConstraint(s''.graph, configured, if hint.Some? then hint.value else u);
  }

  lemma HintStaysKnown(s: ContextState, s': ContextState, s'': ContextState, desired: string, configured: set<string>,
                       rank: Rank, c: TypeConstraint)
    requires Consistent(s, configured, rank) && Extends(s, s', desired) && Extends(s', s'', desired) && IsHint(s, c)
    ensures KnownConstraint(s''.graph, configured, c)
  {
    ExtendsTransitive(s, s', s'', desired, configured, rank);
    HintStays(s, s'', desired, configured, rank, c);
  }

  // ----- homogeneous operands -----

  /** Only the operator and the operands put constraints on the variable. */
  ghost predicate UnitesOnly(s: ContextState, operandHint: Option<TypeConstraint>, operand: Expression,
                             v: TypeVariable) {
    && operand.Array? && v in s.graph.variables
    && exists ts :: TypedAll(s, Some(Variable(v)), operand, ts) && Unites(s, operandHint, ts, v)
         && forall c :: c in s.graph.variables[v] ==> c in ts || operandHint == Some(c)
  }

  /** The operands share a new type variable, to which the type of each is added unless that makes a cycle. */
  method InferHomogeneous(context: PipelineTypeContext, desired: string, operandHint: Option<TypeConstraint>,
                          operand: Expression)
    returns (r: Result<TypeConstraint>)
    requires context.Valid() && Admissible(operand, context.configured)
    requires operandHint.Some? ==> Refs(operandHint.value) == {}
    modifies context
    ensures context.Valid()
    ensures Framed(old(context.State()), context.State(), desired, operand)
    ensures Fails(PairError(operand, old(context.inputDocType).Some?), r)
    ensures r.Ok? ==>
      var v := TypeVariable(old(context.nextTypeVariable), Invariant);
      && r.value == Variable(v) && KnownConstraint(context.State().graph, context.configured, r.value)
      && TypedHomogeneous(context.State(), operandHint, operand, r.value)
      && UnitesOnly(context.State(), operandHint, operand, v)
    decreases operand, 6
  {
    var pair := TwoParameterOperand(operand);
    ghost var s, rank := context.State(), context.rank;
    ExtendsReflexive(s, desired);
    if pair.Err? { return Err(pair.error); }
    var (a, b) := pair.value;
    var v := context.NewTypeVariable(Invariant, if operandHint.Some? then {operandHint.value} else {});
    ghost var s0 := context.State();
    NewVariableExtends(s, s0, context.configured, rank, desired, v, operandHint);
    var types := InferOperands(context, desired, Some(Variable(v)), operand, a, b);
    ghost var s1 := context.State();
    FramedTransitive(s, s0, s1, desired, operand, context.configured, rank);
    if types.Err? { return Err(types.error); }
    ghost var added := ConstrainToOperands(context, v, types.value);
    r := Ok(Variable(v));
    HomogeneousDone(s, s1, context.State(), desired, operandHint, operand, types.value, v, added);
  }

  method InferOperands(context: PipelineTypeContext, desired: string, hint: Option<TypeConstraint>,
                       ghost operand: Expression, a: Expression, b: Expression)
    returns (r: Result<seq<TypeConstraint>>)
    requires operand == Array([a, b])
    requires context.Valid() && HintUsable(context.State(), hint) && Admissible(operand, context.configured)
    modifies context
    ensures context.Valid()
    ensures InferredAll(old(context.State()), context.State(), context.configured, desired, hint, operand, r)
    decreases operand, 0
  {
    assert operand.elements[0] == a && operand.elements[1] == b;
    ghost var s, rank := context.State(), context.rank;
    Start(s, context.configured, desired, hint, operand);
    var typeA := InferType(context, desired, hint, a, true);
    ghost var s', rank' := context.State(), context.rank;
    ElementStep(s, s, s', context.configured, rank, rank, desired, hint, operand, [], typeA);
    if typeA.Err? { return Err(typeA.error); }
    var first := [] + [typeA.value];
    var typeB := InferType(context, desired, hint, b, true);
    ElementStep(s, s', context.State(), context.configured, rank, rank', desired, hint, operand, first, typeB);
    if typeB.Err? { return Err(typeB.error); }
    r := Ok(first + [typeB.value]);
  }

  /** Adds each type to the variable, unless it leads to the variable. */
  method ConstrainToOperands(context: PipelineTypeContext, v: TypeVariable, ts: seq<TypeConstraint>)
    returns (ghost added: set<TypeConstraint>)
    requires context.Valid() && v in context.typeVariables
    requires forall t :: t in ts ==> KnownConstraint(context.State().graph, context.configured, t)
    modifies context
    ensures context.Valid() && context.State() == WithConstraints(old(context.State()), v, added)
    ensures added <= (set t | t in ts)
    ensures forall t :: t in ts ==> t in added || LeadsTo(context.State().graph, t, v)
  {
    ghost var s := context.State();
    added := {};
    NoConstraints(s, v);
    for i := 0 to |ts|
      invariant context.Valid() && context.State() == WithConstraints(s, v, added)
      invariant added <= (set t | t in ts)
      invariant forall t :: t in ts[..i] ==> t in added || LeadsTo(context.State().graph, t, v)
    {
      ghost var before := context.State();
      assert KnownConstraint(s.graph, context.configured, ts[i]);
      KnownWithConstraints(s, context.configured, v, added, ts[i]);
      if !context.ConstraintReferencesVariable(ts[i], v) {
        context.SetTypeVariableConstraint(v, ts[i]);
        MoreConstraints(s, v, added, ts[i]);
        added := added + {ts[i]};
      }
      LeadsToStays(before, context.State(), ts[..i], v);
      assert ts[..i + 1] == ts[..i] + [ts[i]];
    }
    assert ts[..|ts|] == ts;
  }

  lemma NewVariableExtends(s: ContextState, s': ContextState, configured: set<string>, rank: Rank, desired: string,
                           v: TypeVariable, operandHint: Option<TypeConstraint>)
    requires Consistent(s, configured, rank) && v.id == s.nextVariable
    requires s' == s.(
      graph := Graph(s.graph.variables[v := if operandHint.Some? then {operandHint.value} else {}], s.graph.objects),
      nextVariable := s.nextVariable + 1)
    requires operandHint.Some? ==> Refs(operandHint.value) == {}
    ensures Extends(s, s', desired) && IsHint(s', Variable(v))
  {
  }

  lemma KnownWithConstraints(s: ContextState, configured: set<string>, v: TypeVariable, cs: set<TypeConstraint>,
                             c: TypeConstraint)
    requires v in s.graph.variables && KnownConstraint(s.graph, configured, c)
    ensures KnownConstraint(WithConstraints(s, v, cs).graph, configured, c)
  {
    forall n | n in Refs(c) ensures Known(WithConstraints(s, v, cs).graph, configured, n) {
      assert Known(s.graph, configured, n);
    }
  }

  lemma LeadsToStays(s: ContextState, s': ContextState, ts: seq<TypeConstraint>, v: TypeVariable)
    requires Grows(s, s')
    ensures forall t :: t in ts && LeadsTo(s.graph, t, v) ==> LeadsTo(s'.graph, t, v)
  {
    EdgesStay(s, s');
    forall t | t in ts && LeadsTo(s.graph, t, v) ensures LeadsTo(s'.graph, t, v) {
      var n :| n in Refs(t) && Reaches(s.graph, n, VariableNode(v));
      ReachesStays(s.graph, s'.graph, n, VariableNode(v));
    }
  }

  lemma HomogeneousDone(s: ContextState, s2: ContextState, s': ContextState, desired: string,
                        operandHint: Option<TypeConstraint>, operand: Expression, ts: seq<TypeConstraint>,
                        v: TypeVariable, added: set<TypeConstraint>)
    requires IsPair(operand) && v.variance.Invariant? && v in s2.graph.variables && v !in s.graph.variables
    requires s2.graph.variables[v] == if operandHint.Some? then {operandHint.value} else {}
    requires Framed(s, s2, desired, operand) && s' == WithConstraints(s2, v, added)
    requires TypedAll(s2, Some(Variable(v)), operand, ts)
    requires added <= (set t | t in ts) && forall t :: t in ts ==> t in added || LeadsTo(s'.graph, t, v)
    ensures Framed(s, s', desired, operand)
    ensures TypedHomogeneous(s', operandHint, operand, Variable(v)) && UnitesOnly(s', operandHint, operand, v)
  {
    assert Grows(s2, s');
    TypedAllStays(s2, s', Some(Variable(v)), operand, ts);
    assert Unites(s', operandHint, ts, v);
  }

  // ----- plain documents -----

  /** The fields before the i-th have their types, known ones. */
  ghost predicate FieldsTyped(s: ContextState, configured: set<string>, e: Expression, i: nat,
                              types: map<string, TypeConstraint>) {
    && e.Document? && i <= |e.fields| && types.Keys == FieldNames(e.fields[..i])
    && (forall j :: 0 <= j < i ==>
          e.fields[j].name in types && Typed(s, None, e.fields[j].value, types[e.fields[j].name]))
    && (forall f :: f in types ==> KnownConstraint(s.graph, configured, types[f]))
  }

  lemma FieldsStayTyped(s: ContextState, s': ContextState, configured: set<string>, e: Expression, i: nat,
                        types: map<string, TypeConstraint>)
    requires Grows(s, s') && FieldsTyped(s, configured, e, i, types)
    ensures FieldsTyped(s', configured, e, i, types)
  {
    forall j | 0 <= j < i ensures Typed(s', None, e.fields[j].value, types[e.fields[j].name]) {
      TypedStays(s, s', None, e.fields[j].value, types[e.fields[j].name]);
    }
    forall f | f in types ensures KnownConstraint(s'.graph, configured, types[f]) {
      KnownGrows(s, s', configured, types[f]);
    }
  }

  lemma KnownGrows(s: ContextState, s': ContextState, configured: set<string>, c: TypeConstraint)
    requires Grows(s, s') && KnownConstraint(s.graph, configured, c)
    ensures KnownConstraint(s'.graph, configured, c)
  {
    forall n | n in Refs(c) ensures Known(s'.graph, configured, n) {
      assert Known(s.graph, configured, n);
    }
  }

  lemma FieldNamesStep(fields: seq<ExpressionField>, i: nat)
    requires i < |fields|
    ensures FieldNames(fields[..i + 1]) == FieldNames(fields[..i]) + {fields[i].name}
  {
    assert fields[..i + 1] == fields[..i] + [fields[i]];
    forall name | name in FieldNames(fields[..i]) ensures name in FieldNames(fields[..i + 1]) {
      var j :| 0 <= j < i && fields[..i][j].name == name;
      assert fields[..i + 1][j].name == name;
    }
    assert fields[..i + 1][i].name in FieldNames(fields[..i + 1]);
  }

  lemma FieldAdded(s: ContextState, configured: set<string>, e: Expression, i: nat,
                   types: map<string, TypeConstraint>, t: TypeConstraint)
    requires FieldsTyped(s, configured, e, i, types) && i < |e.fields|
    requires forall j, k :: 0 <= j < k < |e.fields| ==> e.fields[j].name != e.fields[k].name
    requires Typed(s, None, e.fields[i].value, t) && KnownConstraint(s.graph, configured, t)
    ensures FieldsTyped(s, configured, e, i + 1, types[e.fields[i].name := t])
  {
    var name := e.fields[i].name;
    FieldNamesStep(e.fields, i);
    forall j | 0 <= j < i + 1
      ensures e.fields[j].name in types[name := t]
      ensures Typed(s, None, e.fields[j].value, types[name := t][e.fields[j].name])
    {
      FieldStaysTyped(s, configured, e, i, j, types, t);
    }
  }

  lemma FieldStaysTyped(s: ContextState, configured: set<string>, e: Expression, i: nat, j: nat,
                        types: map<string, TypeConstraint>, t: TypeConstraint)
    requires FieldsTyped(s, configured, e, i, types) && j <= i < |e.fields|
    requires j < i ==> e.fields[j].name != e.fields[i].name
    requires Typed(s, None, e.fields[i].value, t)
    ensures var types' := types[e.fields[i].name := t];
      e.fields[j].name in types' && Typed(s, None, e.fields[j].value, types'[e.fields[j].name])
  {
  }

  /** The first fields of a document are inferred, and the name reserved for it is still free. */
  ghost predicate DocumentProgress(s: ContextState, s': ContextState, configured: set<string>, desired: string,
                                   e: Expression, i: nat, name: string, types: map<string, TypeConstraint>) {
    && FieldsTyped(s', configured, e, i, types)
    && Framed(s, s', desired, e)
    && FirstFieldError(e, s.input.Some?, 0) == FirstFieldError(e, s.input.Some?, i)
    && name !in s'.graph.objects
  }

  lemma FieldFrame(s: ContextState, s': ContextState, s'': ContextState, configured: set<string>, rank: Rank,
                   desired: string, e: Expression, i: nat, name: string)
    requires Consistent(s, configured, rank) && Admissible(e, configured)
    requires e.Document? && Operators(e.fields) == [] && i < |e.fields| && Framed(s, s', desired, e)
    requires Framed(s', s'', desired + "_" + e.fields[i].name, e.fields[i].value)
    requires name !in s'.graph.objects && (name == Root(desired) || exists k :: name == Numbered(desired, k))
    ensures Framed(s, s'', desired, e) && name !in s''.graph.objects
  {
    var field := e.fields[i].name;
    assert Mentioned(e.fields[i].value) <= Mentioned(e);
    if Generates(e.fields[i].value) {
      NestedUnder(desired, field);
    }
    ExtendsElsewhere(s', s'', desired + "_" + field, desired);
    FramedTransitive(s, s', s'', desired, e, configured, rank);
    if name in s''.graph.objects {
      NestedNames(desired, field, name);
    }
  }

  lemma ExtendsElsewhere(s: ContextState, s': ContextState, desired: string, other: string)
    requires Extends(s, s', desired)
    requires s'.graph.objects == s.graph.objects || forall n :: Under(desired, n) ==> Under(other, n)
    ensures Extends(s, s', other)
  {
  }

  lemma FieldAdvance(s: ContextState, s': ContextState, s'': ContextState, configured: set<string>, rank: Rank,
                     desired: string, e: Expression, i: nat, name: string, types: map<string, TypeConstraint>,
                     hint: Option<TypeConstraint>, r: Result<TypeConstraint>)
    requires Consistent(s, configured, rank)
    requires DocumentProgress(s, s', configured, desired, e, i, name, types) && i < |e.fields|
    requires Admissible(e, configured) && Operators(e.fields) == []
    requires name == Root(desired) || exists k :: name == Numbered(desired, k)
    requires Inferred(s', s'', configured, desired + "_" + e.fields[i].name, None, e.fields[i].value, r)
    ensures r.Ok? ==> DocumentProgress(s, s'', configured, desired, e, i + 1, name, types[e.fields[i].name := r.value])
    ensures r.Err? ==> Inferred(s, s'', configured, desired, hint, e, r)
  {
    FieldFrame(s, s', s'', configured, rank, desired, e, i, name);
    if r.Ok? {
      ExtendsGrows(s', s'', desired + "_" + e.fields[i].name);
      FieldsStayTyped(s', s'', configured, e, i, types);
      FieldAdded(s'', configured, e, i, types, r.value);
    }
  }

  /** A plain document gets an object type under a unique name, chosen before its fields are inferred. */
  method InferDocument(context: PipelineTypeContext, desired: string, ghost hint: Option<TypeConstraint>, e: Expression,
                       ghost safe: bool)
    returns (r: Result<TypeConstraint>)
    requires e.Document? && Operators(e.fields) == []
    requires if safe then Safe(context, None, e) else Runnable(context, e)
    modifies context
    ensures safe ==> context.Valid()
    ensures safe ==> Inferred(old(context.State()), context.State(), context.configured, desired, hint, e, r)
    ensures !safe ==> Registered(context.State())
    ensures !safe ==> RunsTo(old(context.State()), context.State(), context.configured, desired, hint, e, r)
    ensures r.Ok? ==>
      && r.value.Object? && IsUniqueName(context.configured + old(context.objectTypes).Keys, desired, r.value.name)
    decreases e, 1
  {
    ghost var s, rank := context.State(), context.rank;
    var name := context.UniqueName(desired);
    UniqueNameUnder(context.configured + context.objectTypes.Keys, desired, name);
    var types := InferFields(context, desired, hint, e, name, safe);
    if types.Err? { return Err(types.error); }
    ghost var s' := context.State();
    if safe {
      FreshObject(s', context.configured, context.rank, name, types.value);
    }
    context.InsertObjectType(name, types.value);
    if safe {
      DocumentDone(s, s', context.State(), context.configured, desired, e, name, types.value, hint);
    }
    r := Ok(Object(name));
  }

  lemma FieldRuns(s: ContextState, s': ContextState, s'': ContextState, configured: set<string>, desired: string,
                  e: Expression, i: nat, types: map<string, TypeConstraint>, t: TypeConstraint)
    requires e.Document? && i < |e.fields| && FieldsRun(s, configured, desired, e, i, s', types)
    requires Runs(s', configured, desired + "_" + e.fields[i].name, None, e.fields[i].value, s'', t)
    ensures FieldsRun(s, configured, desired, e, i + 1, s'', types[e.fields[i].name := t])
  {
    assert FieldStep(configured, desired, e, i + 1, s', types, s'', types[e.fields[i].name := t]);
  }

  /** The types of the fields, each inferred at the document's type name extended by the field's name. */
  method InferFields(context: PipelineTypeContext, desired: string, ghost hint: Option<TypeConstraint>, e: Expression,
                     ghost name: string, ghost safe: bool)
    returns (r: Result<map<string, TypeConstraint>>)
    requires e.Document? && Operators(e.fields) == []
    requires if safe then Safe(context, None, e) else Runnable(context, e)
    requires name !in context.objectTypes && (name == Root(desired) || exists k :: name == Numbered(desired, k))
    modifies context
    ensures safe ==> context.Valid()
    ensures safe && r.Ok? ==>
      DocumentProgress(old(context.State()), context.State(), context.configured, desired, e, |e.fields|, name, r.value)
    ensures safe && r.Err? ==>
      Inferred(old(context.State()), context.State(), context.configured, desired, hint, e, Err(r.error))
    ensures !safe ==> Registered(context.State()) && r.Ok?
    ensures !safe ==>
      FieldsRun(old(context.State()), context.configured, desired, e, |e.fields|, context.State(), r.value)
    decreases e, 0
  {
    ghost var s, rank := context.State(), context.rank;
    ExtendsReflexive(s, desired);
    var types: map<string, TypeConstraint> := map[];
    for i := 0 to |e.fields|
      invariant safe ==>
        context.Valid() && DocumentProgress(s, context.State(), context.configured, desired, e, i, name, types)
      invariant !safe ==>
        Registered(context.State()) && FieldsRun(s, context.configured, desired, e, i, context.State(), types)
    {
      var field := e.fields[i];
      ghost var s', earlier := context.State(), types;
      var t := InferType(context, desired + "_" + field.name, None, field.value, safe);
      if safe {
        FieldAdvance(s, s', context.State(), context.configured, rank, desired, e, i, name, types, hint, t);
      }
      if t.Err? { return Err(t.error); }
      types := types[field.name := t.value];
      if !safe {
        FieldRuns(s, s', context.State(), context.configured, desired, e, i, earlier, t.value);
      }
    }
    r := Ok(types);
  }

  lemma ObjectAdded(s: ContextState, s': ContextState, s'': ContextState, desired: string, e: Expression, name: string,
                    types: map<string, TypeConstraint>)
    requires Framed(s, s', desired, e) && Generates(e) && Under(desired, name) && name !in s'.graph.objects
    requires s'' == s'.(graph := Graph(s'.graph.variables, s'.graph.objects[name := types]))
    ensures Framed(s, s'', desired, e) && Grows(s', s'')
  {
  }

  lemma DocumentDone(s: ContextState, s': ContextState, s'': ContextState, configured: set<string>, desired: string,
                     e: Expression, name: string, types: map<string, TypeConstraint>, hint: Option<TypeConstraint>)
    requires e.Document? && Operators(e.fields) == []
    requires DocumentProgress(s, s', configured, desired, e, |e.fields|, name, types)
    requires Under(desired, name)
    requires s'' == s'.(graph := Graph(s'.graph.variables, s'.graph.objects[name := types]))
    ensures Inferred(s, s'', configured, desired, hint, e, Ok(Object(name)))
  {
    ObjectAdded(s, s', s'', desired, e, name, types);
    FieldsStayTyped(s', s'', configured, e, |e.fields|, types);
    assert e.fields[..|e.fields|] == e.fields;
  }

  // ----- references -----

  method InferReference(context: PipelineTypeContext, desired: string, hint: Option<TypeConstraint>,
                        reference: Reference, ghost safe: bool)
    returns (r: Result<TypeConstraint>)
    requires if safe then Safe(context, hint, Text(reference)) else Runnable(context, Text(reference))
    modifies context
    ensures safe ==> context.Valid()
    ensures safe ==>
      Inferred(old(context.State()), context.State(), context.configured, desired, hint, Text(reference), r)
    ensures !safe ==> Registered(context.State())
    ensures !safe ==>
      RunsTo(old(context.State()), context.State(), context.configured, desired, hint, Text(reference), r)
  {
    ghost var s := context.State();
    ExtendsReflexive(s, desired);
    match reference
    case NativeQueryVariable(name, annotation) =>
      r := InferParameter(context, desired, hint, name, annotation, safe);
    case PipelineVariable(_) =>
      r := Err(OtherError);
    case InputDocumentField(name, nestedPath) =>
      if context.inputDocType.None? { return Err(IncompletePipeline); }
      var input := Variable(context.inputDocType.value);
      assert Refs(input) == {VariableNode(input.variable)};
      r := Ok(FieldOf(input, [name] + nestedPath));
    case PlainString(variables) =>
      RegisterStrings(context, desired, variables);
      r := Ok(STRING_TYPE);
    case Unparsable =>
      r := Err(UnableToParseReferenceShorthand);
  }

  method InferParameter(context: PipelineTypeContext, ghost desired: string, hint: Option<TypeConstraint>, name: string,
                        annotation: Option<SchemaTypes.Type>, ghost safe: bool)
    returns (r: Result<TypeConstraint>)
    requires var e := Text(NativeQueryVariable(name, annotation));
      if safe then Safe(context, hint, e) else Runnable(context, e)
    modifies context
    ensures var e := Text(NativeQueryVariable(name, annotation));
      if safe then
        context.Valid() && Inferred(old(context.State()), context.State(), context.configured, desired, hint, e, r)
      else
        && Registered(context.State())
        && RunsTo(old(context.State()), context.State(), context.configured, desired, hint, e, r)
  {
    ghost var s, rank := context.State(), context.rank;
    var constraints := ParameterConstraints(hint, annotation);
    var t := context.RegisterParameter(name, constraints);
    if safe {
      ParameterInferred(s, context.configured, rank, desired, hint, name, annotation);
    }
    r := Ok(t);
  }

  lemma ParameterInferred(s: ContextState, configured: set<string>, rank: Rank, desired: string,
                          hint: Option<TypeConstraint>, name: string, annotation: Option<SchemaTypes.Type>)
    requires Consistent(s, configured, rank) && HintUsable(s, hint)
    requires annotation.Some? ==> AnnotationConfigured(annotation.value, configured)
    ensures var registered, constraints := WithParameter(s, name), ParameterConstraints(hint, annotation);
      var v := registered.parameters[name];
      && (forall c :: c in constraints ==>
            !LeadsTo(registered.graph, c, v) && KnownConstraint(registered.graph, configured, c))
      && Inferred(s, WithConstraints(registered, v, Members(constraints)), configured, desired, hint,
                  Text(NativeQueryVariable(name, annotation)), Ok(Variable(v)))
  {
    var constraints := ParameterConstraints(hint, annotation);
    ParameterConstraintsHarmless(s, configured, hint, annotation);
    ConstraintsHarmless(s, name, configured, rank, constraints);
    RegisterExtends(s, name, Members(constraints), configured, rank, desired);
  }

  lemma ConstraintsHarmless(s: ContextState, name: string, configured: set<string>, rank: Rank,
                            constraints: seq<TypeConstraint>)
    requires Consistent(s, configured, rank)
    requires forall c :: c in constraints ==> Harmless(s, configured, c)
    ensures var registered := WithParameter(s, name);
      forall c :: c in constraints ==>
        !LeadsTo(registered.graph, c, registered.parameters[name]) && KnownConstraint(registered.graph, configured, c)
  {
    forall c | c in constraints
      ensures var registered := WithParameter(s, name);
        !LeadsTo(registered.graph, c, registered.parameters[name]) && KnownConstraint(registered.graph, configured, c)
    {
      HarmlessDoesNotLead(s, name, configured, rank, c);
    }
  }

  lemma ParameterConstraintsHarmless(s: ContextState, configured: set<string>, hint: Option<TypeConstraint>,
                                     annotation: Option<SchemaTypes.Type>)
    requires HintUsable(s, hint) && (annotation.Some? ==> AnnotationConfigured(annotation.value, configured))
    ensures forall c :: c in ParameterConstraints(hint, annotation) ==> Harmless(s, configured, c)
  {
    if annotation.Some? {
      AnnotationNames(annotation.value, configured);
      FromTypeRefs(annotation.value);
    }
  }

  /** A plain string makes every native query variable in it a string. */
  method RegisterStrings(context: PipelineTypeContext, desired: string, variables: seq<string>)
    requires context.Valid()
    modifies context
    ensures context.Valid()
    ensures Framed(old(context.State()), context.State(), desired, Text(PlainString(variables)))
    ensures forall name :: name in variables ==> HasConstraint(context.State(), name, STRING_TYPE)
  {
    ghost var s, rank := context.State(), context.rank;
    ExtendsReflexive(s, desired);
    for i := 0 to |variables|
      invariant context.Valid() && Framed(s, context.State(), desired, Text(PlainString(variables)))
      invariant forall name :: name in variables[..i] ==> HasConstraint(context.State(), name, STRING_TYPE)
    {
      ghost var s', rank' := context.State(), context.rank;
      ConstraintsHarmless(s', variables[i], context.configured, rank', [STRING_TYPE]);
      StringRegistered(s', context.configured, rank', desired, variables, i);
      var _ := context.RegisterParameter(variables[i], [STRING_TYPE]);
      FramedTransitive(s, s', context.State(), desired, Text(PlainString(variables)), context.configured, rank);
    }
    assert variables[..|variables|] == variables;
  }

  lemma StringRegistered(s: ContextState, configured: set<string>, rank: Rank, desired: string, variables: seq<string>,
                         i: nat)
    requires Consistent(s, configured, rank) && i < |variables|
    requires forall name :: name in variables[..i] ==> HasConstraint(s, name, STRING_TYPE)
    ensures var registered := WithParameter(s, variables[i]);
      var s' := WithConstraints(registered, registered.parameters[variables[i]], Members([STRING_TYPE]));
      && Framed(s, s', desired, Text(PlainString(variables)))
      && forall name :: name in variables[..i + 1] ==> HasConstraint(s', name, STRING_TYPE)
  {
    var registered := WithParameter(s, variables[i]);
    var s' := WithConstraints(registered, registered.parameters[variables[i]], Members([STRING_TYPE]));
    RegisterExtends(s, variables[i], Members([STRING_TYPE]), configured, rank, desired);
    HasConstraintStays(s, s', desired);
    assert [STRING_TYPE][0] in Members([STRING_TYPE]);
    assert HasConstraint(s', variables[i], STRING_TYPE);
    assert variables[..i + 1] == variables[..i] + [variables[i]];
  }

  lemma HasConstraintStays(s: ContextState, s': ContextState, desired: string)
    requires Extends(s, s', desired)
    ensures forall name, c :: HasConstraint(s, name, c) ==> HasConstraint(s', name, c)
  {
    ExtendsGrows(s, s', desired);
    EdgesStay(s, s');
    forall name, c | HasConstraint(s, name, c) ensures HasConstraint(s', name, c) {
    }
  }
}
