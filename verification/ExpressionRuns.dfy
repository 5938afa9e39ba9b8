/**
 Runs of inference over expressions without operators and arrays. No occurs check is made in them, so
 they end in every state of the context, also when the graph of references is or becomes cyclic.
 */
module ExpressionRuns {
  import opened Options
  import opened TypeConstraints
  import opened ConstraintGraphs
  import opened TypeNames
  import opened PipelineTypeContexts
  import opened ExpressionTyping

  /** Scalars, native query variables, and documents of these without operators. */
  predicate Plain(e: Expression) {
    match e
    case Leaf(_) => true
    case Text(reference) => reference.NativeQueryVariable?
    case Array(_) => false
    case Document(fields) =>
      Operators(fields) == [] && forall i :: 0 <= i < |fields| ==> Plain(fields[i].value)
  }

  /** Inferring the expression takes the context from one state to another, with the given type. */
  ghost predicate Runs(s: ContextState, configured: set<string>, desired: string, hint: Option<TypeConstraint>,
                       e: Expression, s': ContextState, t: TypeConstraint)
    decreases e, 1
  {
    match e
    case Leaf(leaf) => s' == s && t == LeafType(leaf)
    case Text(NativeQueryVariable(name, annotation)) =>
      var registered := WithParameter(s, name);
      var v := registered.parameters[name];
      t == Variable(v) && s' == WithConstraints(registered, v, Members(ParameterConstraints(hint, annotation)))
    case Document(fields) =>
      && Operators(fields) == [] && t.Object?
      && IsUniqueName(configured + s.graph.objects.Keys, desired, t.name)
      && exists last, types ::
           FieldsRun(s, configured, desired, e, |fields|, last, types)
           && s' == last.(graph := WithObject(last.graph, t.name, types))
    case _ => false
  }

  /** Inferring the first fields of the document, each at the type name extended by the field's name. */
  ghost predicate FieldsRun(s: ContextState, configured: set<string>, desired: string, e: Expression, i: nat,
                            s': ContextState, types: map<string, TypeConstraint>)
    requires e.Document? && i <= |e.fields|
    decreases e, 0, i, 1
  {
    if i == 0 then s' == s && types == map[]
    else
      exists before, earlier ::
        && FieldStep(configured, desired, e, i, before, earlier, s', types)
        && FieldsRun(s, configured, desired, e, i - 1, before, earlier)
  }

  /** Inferring the i-th field, counted from one. */
  ghost predicate FieldStep(configured: set<string>, desired: string, e: Expression, i: nat, s: ContextState,
                            earlier: map<string, TypeConstraint>, s': ContextState, types: map<string, TypeConstraint>)
    requires e.Document? && 0 < i <= |e.fields|
    decreases e, 0, i, 0
  {
    var field := e.fields[i - 1];
    && field.name in types && types == earlier[field.name := types[field.name]]
    && Runs(s, configured, desired + "_" + field.name, None, field.value, s', types[field.name])
  }
}
