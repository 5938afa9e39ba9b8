/**
 Where inference over native queries can close a cycle: a nested document whose type takes the name
 reserved for the enclosing one, and an annotation that names a generated type.
 */
module InferenceLimits {
  import opened Options
  import opened Decimals
  import SchemaTypes
  import opened TypeConstraints
  import opened ConstraintGraphs
  import opened TypeNames
  import opened PipelineTypeContexts
  import opened ExpressionTyping
  import opened ExpressionRuns
  import opened RunOutcomes
  import opened InputConditions
  import opened AggregationExpressions

  /** Valid contexts have no cycles of references. */
  lemma ValidAcyclic(context: PipelineTypeContext)
    requires context.Valid()
    ensures Acyclic(context.State().graph)
  {
    RankedAcyclic(context.State().graph, context.rank);
  }

  /**
   While the name of a document is reserved but not yet taken, the type of a nested document takes it
   exactly if it is what the nested type name is parsed into.
   */
  lemma NestedClash(taken: set<string>, takenLater: set<string>, desired: string, field: string, reserved: string,
                    nested: string)
    requires IsUniqueName(taken, desired, reserved) && reserved !in takenLater
    requires IsUniqueName(takenLater, desired + "_" + field, nested)
    ensures nested == reserved <==> Root(desired + "_" + field) == reserved
  {
    var prefix := desired + "_";
    var nestedDesired := prefix + field;
    if nested == reserved && nested != Root(nestedDesired) {
      var k :| nested == Numbered(nestedDesired, k);
      var tail := field + "_" + ToDecimal(k);
      assert Numbered(nestedDesired, k) == prefix + tail by {
        assert Numbered(nestedDesired, k) == nestedDesired + ("_" + ToDecimal(k));
        assert tail == field + ("_" + ToDecimal(k));
      }
      assert |Root(desired)| < |nested|;
      assert tail[|field|] == '_' && !AllDigits(tail);
      var j :| reserved == Numbered(desired, j);
      NumberedTail(desired, tail, j);
    }
  }

  // ----- a nested document -----

  /** A document with one field. */
  function Single(field: string, value: Expression): Expression {
    Document([ExpressionField(field, value)])
  }

  lemma SingleRun(s: ContextState, configured: set<string>, desired: string, field: string, value: Expression,
                  s': ContextState, t: TypeConstraint) returns (last: ContextState, u: TypeConstraint)
    requires Runs(s, configured, desired, None, Single(field, value), s', t)
    ensures t.Object? && IsUniqueName(configured + s.graph.objects.Keys, desired, t.name)
    ensures Runs(s, configured, desired + "_" + field, None, value, last, u)
    ensures s' == last.(graph := WithObject(last.graph, t.name, map[field := u]))
  {
    var e := Single(field, value);
    var types;
    last, types :| FieldsRun(s, configured, desired, e, |e.fields|, last, types)
      && s' == last.(graph := WithObject(last.graph, t.name, types));
    FirstField(s, configured, desired, e, |e.fields|, last, types);
    u := types[field];
  }

  lemma FirstField(s: ContextState, configured: set<string>, desired: string, e: Expression, n: nat,
                   s': ContextState, types: map<string, TypeConstraint>)
    requires e.Document? && n == 1 <= |e.fields| && FieldsRun(s, configured, desired, e, n, s', types)
    ensures var field := e.fields[0];
      && field.name in types && types == map[field.name := types[field.name]]
      && Runs(s, configured, desired + "_" + field.name, None, field.value, s', types[field.name])
  {
    var before, earlier :| FieldStep(configured, desired, e, n, before, earlier, s', types)
      && FieldsRun(s, configured, desired, e, n - 1, before, earlier);
  }

  lemma EmptyRun(s: ContextState, configured: set<string>, desired: string, s': ContextState, t: TypeConstraint)
    requires Runs(s, configured, desired, None, Document([]), s', t)
    ensures t.Object? && IsUniqueName(configured + s.graph.objects.Keys, desired, t.name)
    ensures s' == s.(graph := WithObject(s.graph, t.name, map[]))
  {
    var last, types :| FieldsRun(s, configured, desired, Document([]), 0, last, types)
      && s' == last.(graph := WithObject(last.graph, t.name, types));
  }

  lemma NestedRun(s: ContextState, configured: set<string>, desired: string, field: string, s': ContextState,
                  t: TypeConstraint)
      returns (nested: string)
    requires Runs(s, configured, desired, None, Single(field, Document([])), s', t)
    ensures t.Object? && IsUniqueName(configured + s.graph.objects.Keys, desired, t.name)
    ensures IsUniqueName(configured + s.graph.objects.Keys, desired + "_" + field, nested)
    ensures |s'.graph.objects| == |s.graph.objects| + if t.name == nested then 1 else 2
  {
    var last, u := SingleRun(s, configured, desired, field, Document([]), s', t);
    EmptyRun(s, configured, desired + "_" + field, last, u);
    Inserted(s.graph.objects, u.name, map[]);
    Inserted(last.graph.objects, t.name, map[field := u]);
    nested := u.name;
  }

  lemma TwoDocuments(field: string)
    ensures Documents(Single(field, Document([]))) == 2
  {
    var e := Single(field, Document([]));
    assert FieldDocuments(e, 1) == FieldDocuments(e, 0) + Documents(e.fields[0].value);
    assert Documents(Document([])) == 1;
  }

  /**
   An empty document in a field: the graph stays acyclic exactly if the nested type name is not parsed
   to the name reserved for the document.
   */
  lemma NestedRunExact(s: ContextState, configured: set<string>, rank: Rank, desired: string, field: string,
                       s': ContextState, t: TypeConstraint)
    requires Consistent(s, configured, rank)
    requires Runs(s, configured, desired, None, Single(field, Document([])), s', t)
    ensures t.Object? && (Acyclic(s'.graph) <==> Root(desired + "_" + field) != t.name)
  {
    var e, taken := Single(field, Document([])), configured + s.graph.objects.Keys;
    var nested := NestedRun(s, configured, desired, field, s', t);
    NestedClash(taken, taken, desired, field, t.name, nested);
    TwoDocuments(field);
    PlainRunExact(s, configured, rank, desired, e, s', t);
  }

  /** A field named by digits: in `{1: {}}` at `T` both documents get the type `T`. */
  method InferDigitField() returns (context: PipelineTypeContext)
    ensures fresh(context) && !Acyclic(context.State().graph)
  {
    context := new PipelineTypeContext({}, None);
    ghost var s, rank := context.State(), context.rank;
    var r := InferType(context, "T", None, Single("1", Document([])), false);
    NestedRunExact(s, {}, rank, "T", "1", context.State(), r.value);
    ParsedSuffix("T", "1");
  }

  /** A field named by two groups of digits, when the root name and the first numbered one are taken. */
  method InferTwoGroupField() returns (context: PipelineTypeContext)
    ensures fresh(context) && !Acyclic(context.State().graph)
  {
    context := new PipelineTypeContext({"T", "T_1"}, None);
    ghost var s, rank := context.State(), context.rank;
    var r := InferType(context, "T", None, Single("2_0", Document([])), false);
    NestedRunExact(s, {"T", "T_1"}, rank, "T", "2_0", context.State(), r.value);
    TwoGroupRoot();
    SecondNumbered({"T", "T_1"}, r.value.name);
  }

  /** A document two levels deeper can take the name as well: `{2: {0: {}}}` at `T`, with the same names taken. */
  method InferGrandchildField() returns (context: PipelineTypeContext)
    ensures fresh(context) && !Acyclic(context.State().graph)
  {
    context := new PipelineTypeContext({"T", "T_1"}, None);
    ghost var s, rank := context.State(), context.rank;
    var e := Single("2", Single("0", Document([])));
    var r := InferType(context, "T", None, e, false);
    PlainInputExact(s, {"T", "T_1"}, rank, "T", e, context.State(), r.value);
    assert {"T", "T_1"} + s.graph.objects.Keys == {"T", "T_1"};
    GrandchildIntrudes({"T", "T_1"});
  }

  lemma GrandchildIntrudes(taken: set<string>)
    requires taken == {"T", "T_1"}
    ensures Intrudes(Single("2", Single("0", Document([]))), "T", taken, {})
  {
    var outer := UniqueOf(taken, "T");
    SecondNumbered(taken, outer);
    var middle, child := Single("0", Document([])), "T" + "_" + "2";
    var inner := {} + {outer} + {UniqueOf(taken, child)};
    TwoGroupRoot();
    assert child + "_" + "0" == "T" + "_" + "2_0";
    assert Intrudes(Document([]), child + "_" + "0", FieldsTaken(middle, 0, child, taken), inner);
    assert FieldsIntrude(middle, 1, child, taken, inner);
    assert Intrudes(middle, child, taken, {} + {outer});
    var e := Single("2", middle);
    assert FieldsIntrude(e, 1, "T", taken, {} + {outer});
  }

  lemma TwoGroupRoot()
    ensures Root("T" + "_" + "2_0") == "T_2"
  {
    ParsedSuffix("T_2", "0");
    assert "T" + "_" + "2_0" == "T_2" + "_" + "0";
  }

  lemma SecondNumbered(taken: set<string>, name: string)
    requires taken == {"T", "T_1"} && IsUniqueName(taken, "T", name)
    ensures name == "T_2"
  {
    assert ToDecimal(1) == "1" && ToDecimal(2) == "2";
    assert Numbered("T", 1) == "T_1" && Numbered("T", 2) == "T_2";
    assert forall j :: 0 < j < 2 ==> Numbered("T", j) in taken;
    UniqueNameDetermined(taken, "T", name, "T_2");
  }

  // ----- an annotated parameter -----

  /**
   A parameter in a field, annotated with a type: the graph stays acyclic exactly if the annotation does
   not mention the type of the document, and does not lead to the parameter already.
   */
  lemma AnnotationRunExact(s: ContextState, configured: set<string>, rank: Rank, desired: string, field: string,
                           parameter: string, annotation: SchemaTypes.Type, s': ContextState, t: TypeConstraint)
    requires Consistent(s, configured, rank)
    requires var value := Text(NativeQueryVariable(parameter, Some(annotation)));
      Runs(s, configured, desired, None, Single(field, value), s', t)
    ensures t.Object?
    ensures var registered := WithParameter(s, parameter);
      Acyclic(s'.graph) <==>
        !Names(annotation, t.name) && !LeadsTo(registered.graph, FromType(annotation), registered.parameters[parameter])
  {
    var last := ParameterRun(s, configured, desired, field, parameter, annotation, s', t);
    var registered := WithParameter(s, parameter);
    var v, c := registered.parameters[parameter], FromType(annotation);
    var node := VariableNode(v);
    var registeredRank := RegisteredConsistent(s, configured, rank, parameter);
    AddConstraints(registered.graph, v, {c}, registeredRank);
    if LeadsTo(registered.graph, c, v) {
      CyclesStay(last, s');
    } else {
      var lastRank := RankReplaced(registered.graph, node, Constraints(last.graph, node), registeredRank);
      AnnotatedField(s, configured, rank, parameter, last, annotation, t.name);
      InsertVariableField(last.graph, t.name, field, v, lastRank);
    }
  }

  lemma ParameterRun(s: ContextState, configured: set<string>, desired: string, field: string, parameter: string,
                     annotation: SchemaTypes.Type, s': ContextState, t: TypeConstraint) returns (last: ContextState)
    requires Registered(s)
    requires var value := Text(NativeQueryVariable(parameter, Some(annotation)));
      Runs(s, configured, desired, None, Single(field, value), s', t)
    ensures t.Object? && IsUniqueName(configured + s.graph.objects.Keys, desired, t.name)
    ensures var registered := WithParameter(s, parameter);
      var v := registered.parameters[parameter];
      && last == WithConstraints(registered, v, {FromType(annotation)})
      && last.graph == Constrained(registered.graph, v, {FromType(annotation)})
      && s' == last.(graph := WithObject(last.graph, t.name, map[field := Variable(v)]))
      && Grows(last, s')
  {
    var c := FromType(annotation);
    var u;
    last, u := SingleRun(s, configured, desired, field, Text(NativeQueryVariable(parameter, Some(annotation))), s', t);
    assert ParameterConstraints(None, Some(annotation)) == [c] && Members([c]) == {c};
  }

  lemma InsertVariableField(g: Graph, name: string, field: string, v: TypeVariable, rank: Rank)
    requires Ranked(g, rank)
    ensures Acyclic(WithObject(g, name, map[field := Variable(v)]))
       <==> !LeadsBack(g, VariableNode(v), ObjectNode(name))
  {
    var fields := map[field := Variable(v)];
    InsertObject(g, name, fields, rank);
    assert field in fields && VariableNode(v) in Refs(fields[field]);
  }

  /** Only the annotation can mention the name reserved for the document. */
  lemma AnnotatedField(s: ContextState, configured: set<string>, rank: Rank, parameter: string, last: ContextState,
                       annotation: SchemaTypes.Type, name: string)
    requires Consistent(s, configured, rank) && name !in configured && name !in s.graph.objects
    requires var registered := WithParameter(s, parameter);
      last == WithConstraints(registered, registered.parameters[parameter], {FromType(annotation)})
    ensures var v := WithParameter(s, parameter).parameters[parameter];
      LeadsBack(last.graph, VariableNode(v), ObjectNode(name)) <==> Names(annotation, name)
  {
    var v := WithParameter(s, parameter).parameters[parameter];
    var node, c := ObjectNode(name), FromType(annotation);
    FromTypeRefs(annotation);
    FreshUnreferenced(s, configured, rank, node);
    if Names(annotation, name) {
      assert c in Constraints(last.graph, VariableNode(v)) && node in Refs(c);
      assert RefersTo(last.graph, VariableNode(v), node);
      ReachesSelf(last.graph, VariableNode(v));
    } else {
      forall x, d | d in Constraints(last.graph, x) ensures node !in Refs(d) {
        assert d == c || d in Constraints(s.graph, x);
      }
      UnreferencedLeadsBack(last.graph, VariableNode(v), node);
    }
  }

  lemma CyclesStay(s: ContextState, s': ContextState)
    requires Grows(s, s') && !Acyclic(s.graph)
    ensures !Acyclic(s'.graph)
  {
    EdgesStay(s, s');
    var path :| IsPath(s.graph, path) && |path| > 1 && path[0] == path[|path| - 1];
    assert IsPath(s'.graph, path);
  }

  /** A parameter annotated with the type of the document that contains it: `{x: "{{ p | T! }}"}` at `T`. */
  method InferAnnotatedField() returns (context: PipelineTypeContext)
    ensures fresh(context) && !Acyclic(context.State().graph)
  {
    context := new PipelineTypeContext({}, None);
    ghost var s, rank := context.State(), context.rank;
    var e := Single("x", Text(NativeQueryVariable("p", Some(SchemaTypes.Object("T")))));
    var r := InferType(context, "T", None, e, false);
    AnnotationRunExact(s, {}, rank, "T", "x", "p", SchemaTypes.Object("T"), context.State(), r.value);
  }
}
