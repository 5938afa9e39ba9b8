/**
 What runs of inference over expressions without operators come to: the graph of references is acyclic
 in the end exactly if every document has got an object type of its own.
 */
module RunOutcomes {
  import opened Options
  import opened TypeConstraints
  import opened ConstraintGraphs
  import opened PipelineTypeContexts
  import opened ExpressionTyping
  import opened ExpressionRuns

  // ----- the documents of an expression -----

  function Documents(e: Expression): nat
    decreases e, 1, 0
  {
    if e.Document? then 1 + FieldDocuments(e, |e.fields|) else 0
  }

  function FieldDocuments(e: Expression, i: nat): nat
    requires e.Document? && i <= |e.fields|
    decreases e, 0, i
  {
    if i == 0 then 0 else FieldDocuments(e, i - 1) + Documents(e.fields[i - 1].value)
  }

  // ----- runs forget nothing -----

  /** Type variables are numbered, and parameters have type variables. */
  predicate WellFormed(s: ContextState) {
    Registered(s) && forall v :: v in s.graph.variables ==> v.id < s.nextVariable
  }

  lemma ParameterGrows(s: ContextState, name: string, cs: set<TypeConstraint>)
    requires WellFormed(s)
    ensures var registered := WithParameter(s, name);
      var s' := WithConstraints(registered, registered.parameters[name], cs);
      WellFormed(s') && Grows(s, s') && s'.graph.objects == s.graph.objects
  {
  }

  lemma Inserted(objects: map<string, map<string, TypeConstraint>>, name: string, types: map<string, TypeConstraint>)
    ensures |objects[name := types]| == |objects| + if name in objects then 0 else 1
  {
    assert objects[name := types].Keys == objects.Keys + {name};
  }

  /** Object types are inserted only under names that were free when they were chosen. */
  lemma {:induction false} RunGrows(s: ContextState, configured: set<string>, desired: string,
                                    hint: Option<TypeConstraint>, e: Expression, s': ContextState, t: TypeConstraint)
    requires WellFormed(s) && Runs(s, configured, desired, hint, e, s', t)
    ensures WellFormed(s') && Grows(s, s')
    ensures |s'.graph.objects| <= |s.graph.objects| + Documents(e)
    decreases e, 1, 0
  {
    match e
    case Leaf(_) =>
    case Text(NativeQueryVariable(name, annotation)) =>
      ParameterGrows(s, name, Members(ParameterConstraints(hint, annotation)));
    case Document(fields) =>
      var last, types :| FieldsRun(s, configured, desired, e, |fields|, last, types)
        && s' == last.(graph := WithObject(last.graph, t.name, types));
      FieldsGrow(s, configured, desired, e, |fields|, last, types);
      Inserted(last.graph.objects, t.name, types);
  }

  lemma {:induction false} FieldsGrow(s: ContextState, configured: set<string>, desired: string, e: Expression, i: nat,
                                      s': ContextState, types: map<string, TypeConstraint>)
    requires e.Document? && i <= |e.fields|
    requires WellFormed(s) && FieldsRun(s, configured, desired, e, i, s', types)
    ensures WellFormed(s') && Grows(s, s')
    ensures |s'.graph.objects| <= |s.graph.objects| + FieldDocuments(e, i)
    ensures forall f :: f in types ==> exists j :: 0 <= j < i && e.fields[j].name == f
    decreases e, 0, i
  {
    if i > 0 {
      var before, earlier :| FieldStep(configured, desired, e, i, before, earlier, s', types)
        && FieldsRun(s, configured, desired, e, i - 1, before, earlier);
      var field := e.fields[i - 1];
      FieldsGrow(s, configured, desired, e, i - 1, before, earlier);
      RunGrows(before, configured, desired + "_" + field.name, None, field.value, s', types[field.name]);
    }
  }

  // ----- what is reached from the resulting types -----

  ghost predicate LeadsToNode(g: Graph, t: TypeConstraint, node: Node) {
    exists m :: m in Refs(t) && Reaches(g, m, node)
  }

  /** A cycle, and a way to it. */
  ghost predicate LeadsIntoCycle(g: Graph, t: TypeConstraint) {
    exists m, x, y :: m in Refs(t) && Reaches(g, m, x) && Edge(g, x, y) && Reaches(g, y, x)
  }

  /**
   Either all `n` documents have got an object type of their own, then the state is consistent and the
   new types are reached from the resulting ones, or a cycle is.
   */
  ghost predicate Outcome(s: ContextState, s': ContextState, configured: set<string>, ts: set<TypeConstraint>, n: nat) {
    if |s'.graph.objects| == |s.graph.objects| + n then
      && (exists rank :: Consistent(s', configured, rank))
      && (forall t :: t in ts ==> KnownConstraint(s'.graph, configured, t))
      && (forall k :: k in s'.graph.objects && k !in s.graph.objects ==>
            exists t :: t in ts && LeadsToNode(s'.graph, t, ObjectNode(k)))
    else exists t :: t in ts && LeadsIntoCycle(s'.graph, t)
  }

  lemma LeadsStay(s: ContextState, s': ContextState, t: TypeConstraint)
    requires Grows(s, s')
    ensures forall node :: LeadsToNode(s.graph, t, node) ==> LeadsToNode(s'.graph, t, node)
    ensures LeadsIntoCycle(s.graph, t) ==> LeadsIntoCycle(s'.graph, t)
  {
    EdgesStay(s, s');
    forall node | LeadsToNode(s.graph, t, node) ensures LeadsToNode(s'.graph, t, node) {
      var m :| m in Refs(t) && Reaches(s.graph, m, node);
      ReachesStays(s.graph, s'.graph, m, node);
    }
    if LeadsIntoCycle(s.graph, t) {
      var m, x, y :| m in Refs(t) && Reaches(s.graph, m, x) && Edge(s.graph, x, y) && Reaches(s.graph, y, x);
      ReachesStays(s.graph, s'.graph, m, x);
      ReachesStays(s.graph, s'.graph, y, x);
    }
  }

  lemma KnownStaysKnown(s: ContextState, s': ContextState, configured: set<string>, c: TypeConstraint)
    requires Grows(s, s') && KnownConstraint(s.graph, configured, c)
    ensures KnownConstraint(s'.graph, configured, c)
  {
    forall n | n in Refs(c) ensures Known(s'.graph, configured, n) {
      assert Known(s.graph, configured, n);
    }
  }

  /** One more field. */
  lemma FieldOutcome(s: ContextState, before: ContextState, s': ContextState, configured: set<string>,
                     ts: set<TypeConstraint>, t: TypeConstraint, n: nat, m: nat)
    requires Grows(s, before) && Grows(before, s')
    requires |before.graph.objects| <= |s.graph.objects| + n && |s'.graph.objects| <= |before.graph.objects| + m
    requires Outcome(s, before, configured, ts, n)
    requires |before.graph.objects| == |s.graph.objects| + n ==> Outcome(before, s', configured, {t}, m)
    ensures Outcome(s, s', configured, ts + {t}, n + m)
  {
    forall u | u in ts
      ensures forall node :: LeadsToNode(before.graph, u, node) ==> LeadsToNode(s'.graph, u, node)
      ensures LeadsIntoCycle(before.graph, u) ==> LeadsIntoCycle(s'.graph, u)
    {
      LeadsStay(before, s', u);
    }
    if |s'.graph.objects| == |s.graph.objects| + n + m {
      forall u | u in ts + {t} ensures KnownConstraint(s'.graph, configured, u) {
        if u in ts { KnownStaysKnown(before, s', configured, u); }
      }
      forall k | k in s'.graph.objects && k !in s.graph.objects
        ensures exists u :: u in ts + {t} && LeadsToNode(s'.graph, u, ObjectNode(k))
      {
        if k in before.graph.objects {
          var u :| u in ts && LeadsToNode(before.graph, u, ObjectNode(k));
          assert u in ts + {t};
        } else {
          assert t in ts + {t} && LeadsToNode(s'.graph, t, ObjectNode(k));
        }
      }
    } else if |before.graph.objects| == |s.graph.objects| + n {
      assert t in ts + {t} && LeadsIntoCycle(s'.graph, t);
    } else {
      var u :| u in ts && LeadsIntoCycle(before.graph, u);
      assert u in ts + {t};
    }
  }

  // ----- inserting the type of a document -----

  /** Once a node gets other constraints, what led elsewhere still does, or leads to the node. */
  lemma {:induction false} PathStaysOrHits(g: Graph, g': Graph, node: Node, path: seq<Node>)
    requires Replaces(g, g', node) && IsPath(g, path)
    ensures Reaches(g', path[0], node) || Reaches(g', path[0], path[|path| - 1])
  {
    ReachesSelf(g', path[0]);
    if |path| > 1 && path[0] != node {
      TailIsPath(g, path);
      PathStaysOrHits(g, g', node, path[1..]);
      assert Edge(g, path[0], path[1]);
      assert Edge(g', path[0], path[1]);
      if Reaches(g', path[1], node) {
        ReachesByEdge(g', path[0], path[1], node);
      } else {
        ReachesByEdge(g', path[0], path[1], path[|path| - 1]);
      }
    }
  }

  lemma StaysOrHits(g: Graph, g': Graph, node: Node, x: Node, y: Node)
    requires Replaces(g, g', node) && Reaches(g, x, y)
    ensures Reaches(g', x, node) || Reaches(g', x, y)
  {
    var path :| IsPath(g, path) && path[0] == x && path[|path| - 1] == y;
    PathStaysOrHits(g, g', node, path);
  }

  lemma ReplacedByObject(g: Graph, name: string, types: map<string, TypeConstraint>)
    ensures Replaces(g, WithObject(g, name, types), ObjectNode(name))
    ensures forall f :: f in types ==> types[f] in Constraints(WithObject(g, name, types), ObjectNode(name))
  {
    var g' := WithObject(g, name, types);
    forall x | x != ObjectNode(name) ensures Constraints(g', x) == Constraints(g, x) && (In(g', x) <==> In(g, x)) {
    }
  }

  /** A field leads to the name under which the document's type is inserted. */
  lemma ClosesCycle(g: Graph, name: string, types: map<string, TypeConstraint>, f: string)
    requires name in g.objects && f in types && LeadsToNode(g, types[f], ObjectNode(name))
    ensures LeadsIntoCycle(WithObject(g, name, types), Object(name))
  {
    var node, g' := ObjectNode(name), WithObject(g, name, types);
    ReplacedByObject(g, name, types);
    var m :| m in Refs(types[f]) && Reaches(g, m, node);
    LeadsBackReaches(g, m, node);
    ReplacedLeadsBack(g, g', node, types[f], m);
    ReachesSelf(g', node);
    assert node in Refs(Object(name));
  }

  /** A field leads into a cycle: so does the document's type, whatever it replaces. */
  lemma KeepsCycle(g: Graph, name: string, types: map<string, TypeConstraint>, f: string)
    requires f in types && LeadsIntoCycle(g, types[f])
    ensures LeadsIntoCycle(WithObject(g, name, types), Object(name))
  {
    var node, g' := ObjectNode(name), WithObject(g, name, types);
    ReplacedByObject(g, name, types);
    var m, x, y :| m in Refs(types[f]) && Reaches(g, m, x) && Edge(g, x, y) && Reaches(g, y, x);
    LassoStays(g, g', node, m, x, y);
    assert In(g, m) by {
      if m != x { var z := ReachesFirstEdge(g, m, x); }
    }
    assert Edge(g', node, m);
    assert node in Refs(Object(name));
    ReachesSelf(g', node);
    if !Reaches(g', m, node) {
      ReachesByEdge(g', node, m, x);
    }
  }

  lemma LassoStays(g: Graph, g': Graph, node: Node, m: Node, x: Node, y: Node)
    requires Replaces(g, g', node) && Reaches(g, m, x) && Edge(g, x, y) && Reaches(g, y, x)
    ensures Reaches(g', m, node) || (Reaches(g', m, x) && Edge(g', x, y) && Reaches(g', y, x))
  {
    StaysOrHits(g, g', node, m, x);
    StaysOrHits(g, g', node, y, x);
    if !Reaches(g', m, node) {
      assert x != node;
      assert Edge(g', x, y);
      if Reaches(g', y, node) {
        ReachesByEdge(g', x, y, node);
        ReachesTrans(g', m, x, node);
      }
    }
  }

  /** The document's type is inserted under a new name. */
  lemma InsertedFresh(s: ContextState, last: ContextState, configured: set<string>, name: string,
                      types: map<string, TypeConstraint>, n: nat)
    requires Grows(s, last) && |last.graph.objects| == |s.graph.objects| + n
    requires Outcome(s, last, configured, types.Values, n) && name !in last.graph.objects && name !in configured
    ensures Outcome(s, last.(graph := WithObject(last.graph, name, types)), configured, {Object(name)}, n + 1)
  {
    var s' := last.(graph := WithObject(last.graph, name, types));
    var rank :| Consistent(last, configured, rank);
    Inserted(last.graph.objects, name, types);
    assert forall f :: f in types ==> types[f] in types.Values;
    var rank' := InsertedConsistent(last, configured, rank, name, types);
    assert Refs(Object(name)) == {ObjectNode(name)};
    FreshReached(s, last, name, types);
    assert Object(name) in {Object(name)};
  }

  lemma FreshReached(s: ContextState, last: ContextState, name: string, types: map<string, TypeConstraint>)
    requires name !in last.graph.objects
    requires forall k :: k in last.graph.objects && k !in s.graph.objects ==>
      exists t :: t in types.Values && LeadsToNode(last.graph, t, ObjectNode(k))
    ensures var g := WithObject(last.graph, name, types);
      forall k :: k in g.objects && k !in s.graph.objects ==> LeadsToNode(g, Object(name), ObjectNode(k))
  {
    var s' := last.(graph := WithObject(last.graph, name, types));
    ReachesSelf(s'.graph, ObjectNode(name));
    assert ObjectNode(name) in Refs(Object(name));
    forall k | k in s'.graph.objects && k !in s.graph.objects
      ensures LeadsToNode(s'.graph, Object(name), ObjectNode(k))
    {
      if k != name {
        var t :| t in types.Values && LeadsToNode(last.graph, t, ObjectNode(k));
        var m :| m in Refs(t) && Reaches(last.graph, m, ObjectNode(k));
        FieldReached(last, s', name, types, t, m, ObjectNode(k));
      }
    }
  }

  lemma FieldReached(last: ContextState, s': ContextState, name: string, types: map<string, TypeConstraint>,
                     t: TypeConstraint, m: Node, z: Node)
    requires s' == last.(graph := WithObject(last.graph, name, types)) && Grows(last, s')
    requires t in types.Values && m in Refs(t) && Reaches(last.graph, m, z) && In(last.graph, z)
    ensures Reaches(s'.graph, ObjectNode(name), z)
  {
    var f :| f in types && types[f] == t;
    ReplacedByObject(last.graph, name, types);
    ReachesIn(last.graph, m, z);
    EdgesStay(last, s');
    ReachesStays(last.graph, s'.graph, m, z);
    assert Edge(s'.graph, ObjectNode(name), m);
    ReachesByEdge(s'.graph, ObjectNode(name), m, z);
  }

  lemma InsertedOutcome(s: ContextState, last: ContextState, configured: set<string>, name: string,
                        types: map<string, TypeConstraint>, n: nat)
    requires Grows(s, last) && |last.graph.objects| <= |s.graph.objects| + n
    requires Outcome(s, last, configured, types.Values, n) && name !in s.graph.objects && name !in configured
    ensures Outcome(s, last.(graph := WithObject(last.graph, name, types)), configured, {Object(name)}, n + 1)
  {
    Inserted(last.graph.objects, name, types);
    if |last.graph.objects| == |s.graph.objects| + n {
      if name in last.graph.objects {
        var t :| t in types.Values && LeadsToNode(last.graph, t, ObjectNode(name));
        var f :| f in types && types[f] == t;
        ClosesCycle(last.graph, name, types, f);
        assert Object(name) in {Object(name)};
      } else {
        InsertedFresh(s, last, configured, name, types, n);
      }
    } else {
      var t :| t in types.Values && LeadsIntoCycle(last.graph, t);
      var f :| f in types && types[f] == t;
      KeepsCycle(last.graph, name, types, f);
      assert Object(name) in {Object(name)};
    }
  }

  // ----- runs -----

  lemma ParameterOutcome(s: ContextState, configured: set<string>, rank: Rank, name: string,
                         annotation: Option<SchemaTypes.Type>)
    requires Consistent(s, configured, rank)
    requires annotation.Some? ==> AnnotationConfigured(annotation.value, configured)
    ensures var registered := WithParameter(s, name);
      var v := registered.parameters[name];
      var s' := WithConstraints(registered, v, Members(ParameterConstraints(None, annotation)));
      Outcome(s, s', configured, {Variable(v)}, 0)
  {
    var registered := WithParameter(s, name);
    var v, cs := registered.parameters[name], Members(ParameterConstraints(None, annotation));
    assert forall c :: c in cs ==>
      KnownConstraint(registered.graph, configured, c) && !LeadsTo(registered.graph, c, v) by {
      AnnotationHarmless(s, configured, rank, name, annotation);
    }
    var registeredRank := RegisteredConsistent(s, configured, rank, name);
    var rank' := ConstrainedConsistent(registered, configured, registeredRank, v, cs);
    assert Refs(Variable(v)) == {VariableNode(v)};
  }

  lemma AnnotationHarmless(s: ContextState, configured: set<string>, rank: Rank, name: string,
                           annotation: Option<SchemaTypes.Type>)
    requires Consistent(s, configured, rank)
    requires annotation.Some? ==> AnnotationConfigured(annotation.value, configured)
    ensures var registered := WithParameter(s, name);
      forall c :: c in Members(ParameterConstraints(None, annotation)) ==>
        KnownConstraint(registered.graph, configured, c) && !LeadsTo(registered.graph, c, registered.parameters[name])
  {
    if annotation.Some? {
      AnnotationNames(annotation.value, configured);
      FromTypeRefs(annotation.value);
    }
    forall c | c in Members(ParameterConstraints(None, annotation))
      ensures var registered := WithParameter(s, name);
        KnownConstraint(registered.graph, configured, c) && !LeadsTo(registered.graph, c, registered.parameters[name])
    {
      HarmlessDoesNotLead(s, name, configured, rank, c);
    }
  }

  lemma {:induction false} RunOutcome(s: ContextState, configured: set<string>, rank: Rank, desired: string,
                                      e: Expression, s': ContextState, t: TypeConstraint)
    requires Consistent(s, configured, rank) && Ordinary(e, configured)
    requires Runs(s, configured, desired, None, e, s', t)
    ensures Outcome(s, s', configured, {t}, Documents(e))
    decreases e, 1, 0
  {
    match e
    case Leaf(_) =>
    case Text(NativeQueryVariable(name, annotation)) => ParameterOutcome(s, configured, rank, name, annotation);
    case Document(fields) =>
      var last, types :| FieldsRun(s, configured, desired, e, |fields|, last, types)
        && s' == last.(graph := WithObject(last.graph, t.name, types));
      FieldsGrow(s, configured, desired, e, |fields|, last, types);
      FieldsOutcome(s, configured, rank, desired, e, |fields|, last, types);
      InsertedOutcome(s, last, configured, t.name, types, FieldDocuments(e, |fields|));
  }

  lemma {:induction false} FieldsOutcome(s: ContextState, configured: set<string>, rank: Rank, desired: string,
                                         e: Expression, i: nat, s': ContextState, types: map<string, TypeConstraint>)
    requires e.Document? && i <= |e.fields|
    requires Consistent(s, configured, rank) && Ordinary(e, configured)
    requires FieldsRun(s, configured, desired, e, i, s', types)
    ensures Outcome(s, s', configured, types.Values, FieldDocuments(e, i))
    decreases e, 0, i
  {
    if i > 0 {
      var before, earlier :| FieldStep(configured, desired, e, i, before, earlier, s', types)
        && FieldsRun(s, configured, desired, e, i - 1, before, earlier);
      FieldsGrow(s, configured, desired, e, i - 1, before, earlier);
      FieldsOutcome(s, configured, rank, desired, e, i - 1, before, earlier);
      FieldStepOutcome(s, before, configured, desired, e, i, s', earlier, types);
    }
  }

  lemma {:induction false} FieldStepOutcome(s: ContextState, before: ContextState, configured: set<string>,
                                            desired: string, e: Expression, i: nat, s': ContextState,
                                            earlier: map<string, TypeConstraint>, types: map<string, TypeConstraint>)
    requires e.Document? && 0 < i <= |e.fields| && Ordinary(e, configured) && WellFormed(before) && Grows(s, before)
    requires FieldStep(configured, desired, e, i, before, earlier, s', types)
    requires |before.graph.objects| <= |s.graph.objects| + FieldDocuments(e, i - 1)
    requires Outcome(s, before, configured, earlier.Values, FieldDocuments(e, i - 1))
    requires forall f :: f in earlier ==> exists j :: 0 <= j < i - 1 && e.fields[j].name == f
    ensures Outcome(s, s', configured, types.Values, FieldDocuments(e, i))
    decreases e, 0, i, 0
  {
    var field, n := e.fields[i - 1], FieldDocuments(e, i - 1);
    var nested, t := desired + "_" + field.name, types[field.name];
    RunGrows(before, configured, nested, None, field.value, s', t);
    if |before.graph.objects| == |s.graph.objects| + n {
      var rank :| Consistent(before, configured, rank);
      RunOutcome(before, configured, rank, nested, field.value, s', t);
    }
    FieldOutcome(s, before, s', configured, earlier.Values, t, n, Documents(field.value));
    OneMoreValue(earlier, field.name, t);
  }

  lemma OneMoreValue(earlier: map<string, TypeConstraint>, f: string, t: TypeConstraint)
    requires f !in earlier
    ensures earlier[f := t].Values == earlier.Values + {t}
  {
    var types := earlier[f := t];
    forall u | u in earlier.Values ensures u in types.Values {
      var k :| k in earlier && earlier[k] == u;
      assert types[k] == u;
    }
    assert types[f] == t;
  }

  lemma IntoCycleCyclic(g: Graph, t: TypeConstraint)
    requires LeadsIntoCycle(g, t)
    ensures !Acyclic(g)
  {
    var m, x, y :| m in Refs(t) && Reaches(g, m, x) && Edge(g, x, y) && Reaches(g, y, x);
    EdgeAndBack(g, x, y);
  }

  /**
   An expression without operators is inferred in a consistent state: in the end the graph is acyclic
   exactly if each of its documents has got an object type of its own.
   */
  lemma PlainRunExact(s: ContextState, configured: set<string>, rank: Rank, desired: string,
                      e: Expression, s': ContextState, t: TypeConstraint)
    requires Consistent(s, configured, rank) && Ordinary(e, configured)
    requires Runs(s, configured, desired, None, e, s', t)
    ensures Acyclic(s'.graph) <==> |s'.graph.objects| == |s.graph.objects| + Documents(e)
  {
    RunOutcome(s, configured, rank, desired, e, s', t);
    if |s'.graph.objects| == |s.graph.objects| + Documents(e) {
      var rank' :| Consistent(s', configured, rank');
      RankedAcyclic(s'.graph, rank');
    } else {
      IntoCycleCyclic(s'.graph, t);
    }
  }
}
