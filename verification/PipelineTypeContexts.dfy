/**
 The mutable context of native query type inference. Each method says when the graph of references
 between type variables and object types stays acyclic.
 */
module PipelineTypeContexts {
  import opened Options
  import opened Decimals
  import opened TypeConstraints
  import opened ConstraintGraphs
  import opened TypeNames

  // ----- states of a context -----

  datatype ContextState = ContextState(
    graph: Graph,
    nextVariable: nat,
    parameters: map<string, TypeVariable>,
    input: Option<TypeVariable>)

  /** A node of the graph, or an object type of the configuration. */
  predicate Known(g: Graph, configured: set<string>, n: Node) {
    In(g, n) || (n.ObjectNode? && n.name in configured)
  }

  ghost predicate KnownConstraint(g: Graph, configured: set<string>, c: TypeConstraint) {
    forall n :: n in Refs(c) ==> Known(g, configured, n)
  }

  /** All references are to something known. */
  ghost predicate Closed(g: Graph, configured: set<string>) {
    forall x, c :: c in Constraints(g, x) ==> KnownConstraint(g, configured, c)
  }

  /** Parameters have type variables, and these are contravariant. */
  predicate Registered(s: ContextState) {
    forall p :: p in s.parameters ==>
      s.parameters[p] in s.graph.variables && s.parameters[p].variance.Contravariant?
  }

  ghost predicate Consistent(s: ContextState, configured: set<string>, rank: Rank) {
    && Ranked(s.graph, rank) && Closed(s.graph, configured)
    && (forall v :: v in s.graph.variables ==> v.id < s.nextVariable)
    && Registered(s)
    && (s.input.Some? ==> s.input.value in s.graph.variables)
    && s.graph.objects.Keys !! configured
  }

  /** A variable that is no parameter and whose constraints refer to nothing. */
  predicate SinkVariable(s: ContextState, v: TypeVariable) {
    && v in s.graph.variables
    && v !in s.parameters.Values
    && forall c :: c in s.graph.variables[v] ==> Refs(c) == {}
  }

  /** A constraint that refers to sink variables only, as type hints do. */
  predicate IsHint(s: ContextState, c: TypeConstraint) {
    forall n :: n in Refs(c) ==> n.VariableNode? && SinkVariable(s, n.variable)
  }

  /** A constraint that can be put on a parameter: besides sinks it may refer to configured types. */
  predicate Harmless(s: ContextState, configured: set<string>, c: TypeConstraint) {
    forall n :: n in Refs(c) ==>
      (n.VariableNode? && SinkVariable(s, n.variable)) || (n.ObjectNode? && n.name in configured)
  }

  /** A name generated at `desired`: its root, or an extension by an underscore. */
  predicate Under(desired: string, name: string) {
    name == Root(desired) || desired + "_" <= name
  }

  /**
   How inference at a type name changes a state: variables and object types stay, only parameters
   gain constraints, and new object types are named under the type name.
   */
  ghost predicate Extends(s: ContextState, s': ContextState, desired: string) {
    && s.nextVariable <= s'.nextVariable && s'.input == s.input
    && (forall v :: v in s.graph.variables ==> v in s'.graph.variables)
    && (forall v :: v in s.graph.variables ==>
          if v in s.parameters.Values then s.graph.variables[v] <= s'.graph.variables[v]
          else s'.graph.variables[v] == s.graph.variables[v])
    && (forall n :: n in s.graph.objects ==> n in s'.graph.objects && s'.graph.objects[n] == s.graph.objects[n])
    && (forall n :: n in s'.graph.objects && n !in s.graph.objects ==> Under(desired, n))
    && (forall p :: p in s.parameters ==> p in s'.parameters && s'.parameters[p] == s.parameters[p])
    && (forall p :: p in s'.parameters && p !in s.parameters ==> s'.parameters[p].id >= s.nextVariable)
  }

  lemma ParametersStay(s: ContextState, s': ContextState, desired: string, configured: set<string>, rank: Rank,
                       v: TypeVariable)
    requires Consistent(s, configured, rank) && Extends(s, s', desired) && v in s.graph.variables
    ensures v in s'.parameters.Values <==> v in s.parameters.Values
  {
    if v in s'.parameters.Values {
      var p :| p in s'.parameters && s'.parameters[p] == v;
      assert p in s.parameters;
    }
    if v in s.parameters.Values {
      var p :| p in s.parameters && s.parameters[p] == v;
      assert s'.parameters[p] == v;
    }
  }

  lemma ExtendsReflexive(s: ContextState, desired: string)
    ensures Extends(s, s, desired)
  {
  }

  lemma ExtendsTransitive(s: ContextState, s': ContextState, s'': ContextState, desired: string,
                          configured: set<string>, rank: Rank)
    requires Consistent(s, configured, rank)
    requires Extends(s, s', desired) && Extends(s', s'', desired)
    ensures Extends(s, s'', desired)
  {
    forall v | v in s.graph.variables
      ensures if v in s.parameters.Values then s.graph.variables[v] <= s''.graph.variables[v]
              else s''.graph.variables[v] == s.graph.variables[v]
    {
      ParametersStay(s, s', desired, configured, rank, v);
    }
  }

  lemma ExtendsWiden(s: ContextState, s': ContextState, desired: string, wider: string)
    requires Extends(s, s', desired)
    requires forall n :: Under(desired, n) ==> Under(wider, n)
    ensures Extends(s, s', wider)
  {
  }

  /** Hints stay hints. */
  lemma HintStays(s: ContextState, s': ContextState, desired: string, configured: set<string>, rank: Rank,
                  c: TypeConstraint)
    requires Consistent(s, configured, rank) && Extends(s, s', desired) && IsHint(s, c)
    ensures IsHint(s', c)
  {
    forall n | n in Refs(c) ensures n.VariableNode? && SinkVariable(s', n.variable) {
      ParametersStay(s, s', desired, configured, rank, n.variable);
    }
  }

  lemma KnownStays(s: ContextState, s': ContextState, desired: string, configured: set<string>, c: TypeConstraint)
    requires Extends(s, s', desired) && KnownConstraint(s.graph, configured, c)
    ensures KnownConstraint(s'.graph, configured, c)
  {
    forall n | n in Refs(c) ensures Known(s'.graph, configured, n) {
      assert Known(s.graph, configured, n);
    }
  }

  // ----- names -----

  /** Digits, or two groups of digits: as a field name it may look like a counter. */
  predicate CounterLike(f: string) {
    || (f != "" && AllDigits(f))
    || exists i :: 0 < i < |f| - 1 && f[i] == '_' && AllDigits(f[..i]) && AllDigits(f[i + 1..])
  }

  lemma UniqueNameUnder(taken: set<string>, desired: string, name: string)
    requires IsUniqueName(taken, desired, name)
    ensures Under(desired, name) && (name == Root(desired) || exists k :: name == Numbered(desired, k))
  {
  }

  lemma NumberedTail(desired: string, tail: string, k: nat)
    ensures desired + "_" + tail == Numbered(desired, k) <==> tail == ToDecimal(k)
  {
    var prefix := desired + "_";
    assert (prefix + tail)[|prefix|..] == tail && (prefix + ToDecimal(k))[|prefix|..] == ToDecimal(k);
  }

  /** What a nested type name is parsed into still starts with the enclosing name. */
  lemma NestedRoot(desired: string, field: string)
    requires !CounterLike(field)
    ensures var root := Root(desired + "_" + field);
      desired + "_" <= root && !exists k :: root == Numbered(desired, k)
  {
    var prefix := desired + "_";
    var nested := prefix + field;
    var root := Root(nested);
    assert nested[|desired|] == '_';
    if root != nested {
      var p := LastUnderscore(nested).value;
      var q := p - |prefix|;
      var digits := nested[p + 1..];
      assert root == nested[..p] && digits != "" && AllDigits(digits);
      assert p == |desired| ==> digits == field;
      assert root == prefix + field[..q] && field[q + 1..] == digits && field[q] == '_';
      assert q < |field| - 1 && AllDigits(field[q + 1..]);
      forall k ensures root != Numbered(desired, k) {
        NumberedTail(desired, field[..q], k);
      }
    } else {
      forall k ensures root != Numbered(desired, k) {
        NumberedTail(desired, field, k);
      }
    }
  }

  /** Names generated for a field lie under the document's name and differ from its reserved name. */
  lemma NestedNames(desired: string, field: string, name: string)
    requires !CounterLike(field) && Under(desired + "_" + field, name)
    ensures Under(desired, name)
    ensures name != Root(desired) && !exists k :: name == Numbered(desired, k)
  {
    var prefix := desired + "_";
    var nested := prefix + field;
    NestedRoot(desired, field);
    if nested + "_" <= name {
      assert prefix <= nested <= nested + "_" <= name;
      var tail := name[|prefix|..];
      assert name == prefix + tail && tail[|field|] == name[|nested|] == '_';
      forall k ensures name != Numbered(desired, k) {
        NumberedTail(desired, tail, k);
      }
    }
    assert |Root(desired)| < |name|;
  }

  // ----- parameters -----

  /** The state with the parameter registered. */
  function WithParameter(s: ContextState, name: string): ContextState {
    if name in s.parameters then s
    else
      var v := TypeVariable(s.nextVariable, Contravariant);
      ContextState(Graph(s.graph.variables[v := {}], s.graph.objects), s.nextVariable + 1, s.parameters[name := v],
                   s.input)
  }

  /** The state with constraints added to a variable. */
  function WithConstraints(s: ContextState, v: TypeVariable, cs: set<TypeConstraint>): ContextState {
    if v in s.graph.variables then
      s.(graph := Graph(s.graph.variables[v := s.graph.variables[v] + cs], s.graph.objects))
    else s
  }

  function Members(constraints: seq<TypeConstraint>): set<TypeConstraint> {
    set c | c in constraints
  }

  lemma OneMoreMember(constraints: seq<TypeConstraint>, i: nat)
    requires i < |constraints|
    ensures Members(constraints[..i + 1]) == Members(constraints[..i]) + {constraints[i]}
  {
    assert constraints[..i + 1] == constraints[..i] + [constraints[i]];
  }

  lemma NoConstraints(s: ContextState, v: TypeVariable)
    requires v in s.graph.variables
    ensures WithConstraints(s, v, {}) == s
  {
    assert s.graph.variables[v] + {} == s.graph.variables[v];
    assert s.graph.variables[v := s.graph.variables[v]] == s.graph.variables;
  }

  lemma MoreConstraints(s: ContextState, v: TypeVariable, cs: set<TypeConstraint>, c: TypeConstraint)
    requires v in s.graph.variables
    ensures WithConstraints(WithConstraints(s, v, cs), v, {c}) == WithConstraints(s, v, cs + {c})
  {
    assert s.graph.variables[v] + cs + {c} == s.graph.variables[v] + (cs + {c});
    var variables := s.graph.variables;
    assert variables[v := variables[v] + cs][v := variables[v] + cs + {c}] == variables[v := variables[v] + cs + {c}];
  }

  lemma HarmlessWithParameter(s: ContextState, name: string, configured: set<string>, rank: Rank, c: TypeConstraint)
    requires Consistent(s, configured, rank) && Harmless(s, configured, c)
    ensures Harmless(WithParameter(s, name), configured, c)
  {
    var s' := WithParameter(s, name);
    forall n | n in Refs(c) && n.VariableNode? ensures SinkVariable(s', n.variable) {
      assert SinkVariable(s, n.variable);
    }
  }

  /** Registering a parameter and adding constraints to it is an extension at any type name. */
  lemma RegisterExtends(s: ContextState, name: string, cs: set<TypeConstraint>, configured: set<string>, rank: Rank,
                        desired: string)
    requires Consistent(s, configured, rank)
    ensures var s' := WithParameter(s, name);
      name in s'.parameters && s'.parameters[name] in s'.graph.variables
      && Extends(s, WithConstraints(s', s'.parameters[name], cs), desired)
  {
    var s' := WithParameter(s, name);
    var v := s'.parameters[name];
    if name in s.parameters {
      assert v in s.parameters.Values;
    }
  }

  // ----- the context -----

  class PipelineTypeContext {
    const configured: set<string>
    var inputDocType: Option<TypeVariable>
    var parameterTypes: map<string, TypeVariable>
    var objectTypes: map<string, map<string, TypeConstraint>>
    var typeVariables: map<TypeVariable, set<TypeConstraint>>
    var nextTypeVariable: nat
    ghost var rank: Rank

    function State(): ContextState
      reads this
    {
      ContextState(Graph(typeVariables, objectTypes), nextTypeVariable, parameterTypes, inputDocType)
    }

    ghost predicate Valid()
      reads this
    {
      Consistent(State(), configured, rank)
    }

    /** Starts with the document type of the input collection, if there is one. */
    constructor (configured: set<string>, inputCollectionType: Option<string>)
      requires inputCollectionType.Some? ==> inputCollectionType.value in configured
      ensures Valid() && this.configured == configured
      ensures parameterTypes == map[] && objectTypes == map[]
      ensures match inputCollectionType
              case None => inputDocType == None && typeVariables == map[]
              case Some(name) => var v := TypeVariable(0, Covariant);
                inputDocType == Some(v) && typeVariables == map[v := {Object(name)}]
    {
      this.configured := configured;
      inputDocType, parameterTypes, objectTypes, typeVariables := None, map[], map[], map[];
      nextTypeVariable := 0;
      rank := _ => 0;
      new;
      if inputCollectionType.Some? {
        var _ := SetStageDocType(Object(inputCollectionType.value));
        assert map[][TypeVariable(0, Covariant) := {Object(inputCollectionType.value)}]
            == map[TypeVariable(0, Covariant) := {Object(inputCollectionType.value)}];
      }
    }

    method NewTypeVariable(variance: Variance, constraints: set<TypeConstraint>) returns (v: TypeVariable)
      modifies this
      ensures v == TypeVariable(old(nextTypeVariable), variance)
      ensures State() == old(State()).(
        graph := Graph(old(typeVariables)[v := constraints], old(objectTypes)),
        nextVariable := old(nextTypeVariable) + 1)
      ensures old(Valid()) ==> v !in old(typeVariables)
      ensures old(Valid() && forall c :: c in constraints ==> KnownConstraint(State().graph, configured, c)) ==> Valid()
    {
      v := TypeVariable(nextTypeVariable, variance);
      ghost var s := State();
      ghost var valid := Valid() && forall c :: c in constraints ==> KnownConstraint(s.graph, configured, c);
      nextTypeVariable := nextTypeVariable + 1;
      typeVariables := typeVariables[v := constraints];
      if valid {
        NewVariableRanked(s, configured, rank, v, constraints);
        rank := RankReplaced(s.graph, VariableNode(v), constraints, rank);
      }
    }

    method SetTypeVariableConstraint(v: TypeVariable, c: TypeConstraint)
      requires v in typeVariables
      modifies this
      ensures State() == WithConstraints(old(State()), v, {c})
      ensures old(Valid()) ==> (Acyclic(State().graph) <==> !LeadsTo(old(State().graph), c, v))
      ensures old(Valid()) && Acyclic(State().graph) && KnownConstraint(old(State().graph), configured, c) ==> Valid()
    {
      ghost var s := State();
      typeVariables := typeVariables[v := typeVariables[v] + {c}];
      if old(Valid()) {
        AddConstraints(s.graph, v, {c}, rank);
        if KnownConstraint(s.graph, configured, c) {
          ClosedWithConstraints(s.graph, configured, v, {c});
          rank := RankReplaced(s.graph, VariableNode(v), typeVariables[v], rank);
        }
      }
    }

    /** The occurs check: whether the constraint leads to the variable. */
    function ConstraintReferencesVariable(c: TypeConstraint, v: TypeVariable): (found: bool)
      requires Valid() && v in typeVariables
      reads this
      ensures found <==> exists n :: n in Refs(c) && Reaches(State().graph, n, VariableNode(v))
    {
      ReferencesExact(State().graph, c, v, rank, RankBound(Refs(c), rank));
      References(State().graph, c, v, rank, RankBound(Refs(c), rank))
    }

    method InsertObjectType(name: string, fields: map<string, TypeConstraint>)
      modifies this
      ensures State() == old(State()).(graph := WithObject(old(State().graph), name, fields))
      ensures old(Valid()) ==> (Acyclic(State().graph) <==> NoFieldLeadsBack(old(State().graph), name, fields))
      ensures old(Valid() && forall f :: f in fields ==> KnownConstraint(State().graph, configured, fields[f])) ==>
        Acyclic(State().graph) && name !in configured ==> Valid()
    {
      ghost var s := State();
      objectTypes := objectTypes[name := fields];
      if old(Valid()) {
        InsertObject(s.graph, name, fields, rank);
        if forall f :: f in fields ==> KnownConstraint(s.graph, configured, fields[f]) {
          ClosedWithObject(s.graph, configured, name, fields);
          rank := RankReplaced(s.graph, ObjectNode(name), Constraints(State().graph, ObjectNode(name)), rank);
        }
      }
    }

    /** The variable of a parameter, new if the name is. */
    method ParameterVariable(name: string) returns (v: TypeVariable)
      modifies this
      ensures old(Valid()) ==> Valid()
      ensures State() == WithParameter(old(State()), name) && v == parameterTypes[name]
    {
      if name in parameterTypes {
        v := parameterTypes[name];
      } else {
        v := NewTypeVariable(Contravariant, {});
        parameterTypes := parameterTypes[name := v];
      }
    }

    /** The variable of a parameter, to which the constraints are added. */
    method RegisterParameter(name: string, constraints: seq<TypeConstraint>) returns (c: TypeConstraint)
      requires Registered(State())
      modifies this
      ensures name in parameterTypes && c == Variable(parameterTypes[name])
      ensures State() == WithConstraints(WithParameter(old(State()), name), parameterTypes[name], Members(constraints))
      ensures old(Valid()) ==>
        (Acyclic(State().graph) <==>
           forall x :: x in constraints ==> !LeadsTo(WithParameter(old(State()), name).graph, x, parameterTypes[name]))
      ensures old(Valid() && forall x :: x in constraints ==>
                    KnownConstraint(WithParameter(State(), name).graph, configured, x)) ==>
        Acyclic(State().graph) ==> Valid()
    {
      var v := ParameterVariable(name);
      ghost var s, registeredRank := State(), rank;
      NoConstraints(s, v);
      assert Members(constraints[..0]) == {};
      for i := 0 to |constraints|
        invariant State() == WithConstraints(s, v, Members(constraints[..i]))
      {
        MoreConstraints(s, v, Members(constraints[..i]), constraints[i]);
        SetTypeVariableConstraint(v, constraints[i]);
        OneMoreMember(constraints, i);
      }
      assert constraints[..|constraints|] == constraints;
      if old(Valid()) {
        AddConstraints(s.graph, v, Members(constraints), registeredRank);
        if forall x :: x in constraints ==> KnownConstraint(s.graph, configured, x) {
          ClosedWithConstraints(s.graph, configured, v, Members(constraints));
          rank := RankReplaced(s.graph, VariableNode(v), typeVariables[v], registeredRank);
        }
      }
      c := Variable(v);
    }

    method UniqueName(desired: string) returns (name: string)
      ensures IsUniqueName(configured + objectTypes.Keys, desired, name)
      ensures name !in configured && name !in objectTypes
    {
      name := UniqueTypeName(configured, objectTypes.Keys, desired);
    }

    method SetStageDocType(docType: TypeConstraint) returns (c: TypeConstraint)
      requires Valid() && KnownConstraint(State().graph, configured, docType)
      modifies this
      ensures Valid()
      ensures var v := TypeVariable(old(nextTypeVariable), Covariant);
        c == Variable(v) && State() == old(State()).(
          graph := Graph(old(typeVariables)[v := {docType}], old(objectTypes)),
          nextVariable := old(nextTypeVariable) + 1,
          input := Some(v))
    {
      var v := NewTypeVariable(Covariant, {docType});
      inputDocType := Some(v);
      c := Variable(v);
    }
  }

  /** A harmless constraint does not lead to a parameter. */
  lemma HarmlessDoesNotLead(s: ContextState, name: string, configured: set<string>, rank: Rank, c: TypeConstraint)
    requires Consistent(s, configured, rank) && Harmless(s, configured, c)
    ensures var registered := WithParameter(s, name);
      KnownConstraint(registered.graph, configured, c) && !LeadsTo(registered.graph, c, registered.parameters[name])
  {
    var registered := WithParameter(s, name);
    var v := registered.parameters[name];
    HarmlessWithParameter(s, name, configured, rank, c);
    forall n | n in Refs(c) ensures !Reaches(registered.graph, n, VariableNode(v)) {
      assert n.VariableNode? ==> SinkVariable(registered, n.variable);
      assert forall y :: !Edge(registered.graph, n, y);
      SinkReaches(registered.graph, n, VariableNode(v));
    }
  }

  /** Nothing refers to a node that is not known. */
  lemma FreshUnreferenced(s: ContextState, configured: set<string>, rank: Rank, node: Node)
    requires Consistent(s, configured, rank) && !Known(s.graph, configured, node)
    ensures Unreferenced(s.graph, node)
  {
    forall x, c | c in Constraints(s.graph, x) ensures node !in Refs(c) {
      assert KnownConstraint(s.graph, configured, c);
    }
  }

  /** The fields of an object type with a new name do not lead back to it. */
  lemma FreshObject(s: ContextState, configured: set<string>, rank: Rank, name: string,
                    fields: map<string, TypeConstraint>)
    requires Consistent(s, configured, rank) && name !in s.graph.objects && name !in configured
    requires forall f :: f in fields ==> KnownConstraint(s.graph, configured, fields[f])
    ensures NoFieldLeadsBack(s.graph, name, fields)
  {
    FreshUnreferenced(s, configured, rank, ObjectNode(name));
    forall f, n | f in fields && n in Refs(fields[f]) ensures !LeadsBack(s.graph, n, ObjectNode(name)) {
      assert Known(s.graph, configured, n);
      UnreferencedLeadsBack(s.graph, n, ObjectNode(name));
    }
  }

  lemma NewVariableRanked(s: ContextState, configured: set<string>, rank: Rank, v: TypeVariable,
                          constraints: set<TypeConstraint>)
    requires Consistent(s, configured, rank) && v.id == s.nextVariable
    requires forall c :: c in constraints ==> KnownConstraint(s.graph, configured, c)
    ensures var g', node := Graph(s.graph.variables[v := constraints], s.graph.objects), VariableNode(v);
      Ranked(g', RankReplaced(s.graph, node, constraints, rank)) && Closed(g', configured)
  {
    var g', node := Graph(s.graph.variables[v := constraints], s.graph.objects), VariableNode(v);
    FreshUnreferenced(s, configured, rank, node);
    forall c, n | c in constraints && n in Refs(c) ensures !LeadsBack(s.graph, n, node) {
      assert Known(s.graph, configured, n);
      UnreferencedLeadsBack(s.graph, n, node);
    }
    ReplacedRanked(s.graph, g', node, rank);
    ClosedReplaced(s.graph, g', configured, node);
  }

  lemma ClosedReplaced(g: Graph, g': Graph, configured: set<string>, node: Node)
    requires Closed(g, configured) && Replaces(g, g', node)
    requires forall c :: c in Constraints(g', node) ==> c in Constraints(g, node) || KnownConstraint(g, configured, c)
    ensures Closed(g', configured)
  {
    forall x, c | c in Constraints(g', x) ensures KnownConstraint(g', configured, c) {
      assert KnownConstraint(g, configured, c);
      forall n | n in Refs(c) ensures Known(g', configured, n) {
        assert Known(g, configured, n);
      }
    }
  }

  lemma ClosedWithConstraints(g: Graph, configured: set<string>, v: TypeVariable, cs: set<TypeConstraint>)
    requires Closed(g, configured) && v in g.variables && forall c :: c in cs ==> KnownConstraint(g, configured, c)
    ensures Closed(Constrained(g, v, cs), configured)
  {
    ClosedReplaced(g, Constrained(g, v, cs), configured, VariableNode(v));
  }

  lemma ClosedWithObject(g: Graph, configured: set<string>, name: string, fields: map<string, TypeConstraint>)
    requires Closed(g, configured) && forall f :: f in fields ==> KnownConstraint(g, configured, fields[f])
    ensures Closed(WithObject(g, name, fields), configured)
  {
    var g' := WithObject(g, name, fields);
    forall x | x != ObjectNode(name) ensures Constraints(g', x) == Constraints(g, x) && (In(g', x) <==> In(g, x)) {
    }
    ClosedReplaced(g, g', configured, ObjectNode(name));
  }

  // ----- consistent states stay consistent -----

  lemma RegisteredConsistent(s: ContextState, configured: set<string>, rank: Rank, name: string) returns (rank': Rank)
    requires Consistent(s, configured, rank)
    ensures Consistent(WithParameter(s, name), configured, rank')
  {
    rank' := rank;
    if name !in s.parameters {
      var v := TypeVariable(s.nextVariable, Contravariant);
      NewVariableRanked(s, configured, rank, v, {});
      rank' := RankReplaced(s.graph, VariableNode(v), {}, rank);
    }
  }

  lemma ConstrainedConsistent(s: ContextState, configured: set<string>, rank: Rank, v: TypeVariable,
                              cs: set<TypeConstraint>)
      returns (rank': Rank)
    requires Consistent(s, configured, rank) && v in s.graph.variables
    requires forall c :: c in cs ==> KnownConstraint(s.graph, configured, c) && !LeadsTo(s.graph, c, v)
    ensures Consistent(WithConstraints(s, v, cs), configured, rank')
  {
    var g', node := Constrained(s.graph, v, cs), VariableNode(v);
    AddConstraints(s.graph, v, cs, rank);
    ClosedWithConstraints(s.graph, configured, v, cs);
    rank' := RankReplaced(s.graph, node, Constraints(g', node), rank);
  }

  lemma InsertedConsistent(s: ContextState, configured: set<string>, rank: Rank, name: string,
                           types: map<string, TypeConstraint>)
      returns (rank': Rank)
    requires Consistent(s, configured, rank) && name !in s.graph.objects && name !in configured
    requires forall f :: f in types ==> KnownConstraint(s.graph, configured, types[f])
    ensures Consistent(s.(graph := WithObject(s.graph, name, types)), configured, rank')
  {
    var g', node := WithObject(s.graph, name, types), ObjectNode(name);
    FreshObject(s, configured, rank, name, types);
    InsertObject(s.graph, name, types, rank);
    ClosedWithObject(s.graph, configured, name, types);
    rank' := RankReplaced(s.graph, node, Constraints(g', node), rank);
  }
}
