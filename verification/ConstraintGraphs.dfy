/**
 The graph of references between type variables and object types. The occurs check on it follows
 references without remembering where it has been, so it relies on the graph being acyclic.
 */
module ConstraintGraphs {
  import opened TypeConstraints

  datatype Graph = Graph(
    variables: map<TypeVariable, set<TypeConstraint>>,
    objects: map<string, map<string, TypeConstraint>>)

  /** The constraints a node holds. */
  function Constraints(g: Graph, node: Node): set<TypeConstraint> {
    match node
    case VariableNode(v) => if v in g.variables then g.variables[v] else {}
    case ObjectNode(name) =>
      if name in g.objects then set f | f in g.objects[name] :: g.objects[name][f] else {}
  }

  predicate In(g: Graph, node: Node) {
    match node
    case VariableNode(v) => v in g.variables
    case ObjectNode(name) => name in g.objects
  }

  predicate Edge(g: Graph, from: Node, to: Node) {
    In(g, to) && exists c :: c in Constraints(g, from) && to in Refs(c)
  }

  // ----- acyclicity -----

  ghost predicate IsPath(g: Graph, path: seq<Node>) {
    |path| > 0 && forall i :: 0 <= i < |path| - 1 ==> Edge(g, path[i], path[i + 1])
  }

  ghost predicate Reaches(g: Graph, from: Node, to: Node) {
    exists path :: IsPath(g, path) && path[0] == from && path[|path| - 1] == to
  }

  /** No path returns to where it started. */
  ghost predicate Acyclic(g: Graph) {
    forall path :: IsPath(g, path) && |path| > 1 ==> path[0] != path[|path| - 1]
  }

  type Rank = Node -> nat

  /** Ranks decrease along edges. */
  ghost predicate Ranked(g: Graph, rank: Rank) {
    forall x, y {:trigger Edge(g, x, y)} :: Edge(g, x, y) ==> rank(x) > rank(y)
  }

  lemma {:induction false} RankDecreases(g: Graph, rank: Rank, path: seq<Node>)
    requires Ranked(g, rank) && IsPath(g, path) && |path| > 1
    ensures rank(path[0]) > rank(path[|path| - 1])
  {
    assert Edge(g, path[0], path[1]);
    if |path| > 2 {
      TailIsPath(g, path);
      RankDecreases(g, rank, path[1..]);
    }
  }

  lemma RankedAcyclic(g: Graph, rank: Rank)
    requires Ranked(g, rank)
    ensures Acyclic(g)
  {
    forall path | IsPath(g, path) && |path| > 1 ensures path[0] != path[|path| - 1] {
      RankDecreases(g, rank, path);
    }
  }

  lemma TailIsPath(g: Graph, path: seq<Node>)
    requires IsPath(g, path) && |path| > 1
    ensures IsPath(g, path[1..])
  {
    var rest := path[1..];
    forall i | 0 <= i < |rest| - 1 ensures Edge(g, rest[i], rest[i + 1]) {
      assert Edge(g, path[i + 1], path[i + 2]);
    }
  }

  lemma ReachesSelf(g: Graph, x: Node)
    ensures Reaches(g, x, x)
  {
    assert IsPath(g, [x]);
  }

  lemma ReachesByEdge(g: Graph, x: Node, y: Node, z: Node)
    requires Edge(g, x, y) && Reaches(g, y, z)
    ensures Reaches(g, x, z)
  {
    var path :| IsPath(g, path) && path[0] == y && path[|path| - 1] == z;
    var longer := [x] + path;
    forall i | 0 <= i < |longer| - 1 ensures Edge(g, longer[i], longer[i + 1]) {
      if i > 0 { assert Edge(g, path[i - 1], path[i]); }
    }
    assert IsPath(g, longer);
  }

  lemma ReachesFirstEdge(g: Graph, x: Node, z: Node) returns (y: Node)
    requires Reaches(g, x, z) && x != z
    ensures Edge(g, x, y) && Reaches(g, y, z)
  {
    var path :| IsPath(g, path) && path[0] == x && path[|path| - 1] == z;
    y := path[1];
    assert Edge(g, path[0], path[1]);
    TailIsPath(g, path);
    assert path[1..][0] == y;
  }

  // ----- the occurs check -----

  /** `bound` exceeds the rank of everything the constraint refers to. */
  ghost predicate Bounded(g: Graph, c: TypeConstraint, rank: Rank, bound: nat) {
    forall n :: n in Refs(c) && In(g, n) ==> rank(n) < bound
  }

  /** Whether following references from a constraint leads to the variable. */
  function References(g: Graph, c: TypeConstraint, v: TypeVariable, ghost rank: Rank, ghost bound: nat): bool
    requires Ranked(g, rank) && Bounded(g, c, rank, bound)
    decreases bound, 1, c
  {
    match c
    case ExtendedJSON => false
    case Scalar(_) => false
    case Object(name) => NodeReferences(g, ObjectNode(name), v, rank)
    case ArrayOf(element) => References(g, element, v, rank, bound)
    case Predicate(name) => NodeReferences(g, ObjectNode(name), v, rank)
    case Union(types) => exists t :: t in types && References(g, t, v, rank, bound)
    case OneOf(types) => exists t :: t in types && References(g, t, v, rank, bound)
    case Variable(w) => w == v || NodeReferences(g, VariableNode(w), v, rank)
    case ElementOf(container) => References(g, container, v, rank, bound)
    case FieldOf(target, _) => References(g, target, v, rank, bound)
    case WithFieldOverrides(_, target, fields) =>
      References(g, target, v, rank, bound)
      || exists f :: f in fields && fields[f].Replaced? && References(g, fields[f].constraint, v, rank, bound)
  }

  /** Whether following the references of a node's constraints leads to the variable. */
  function NodeReferences(g: Graph, node: Node, v: TypeVariable, ghost rank: Rank): bool
    requires Ranked(g, rank)
    decreases if In(g, node) then rank(node) + 1 else 0, 0
  {
    In(g, node) &&
    exists c :: c in Constraints(g, node) &&
      (NodeBounded(g, node, c, rank); References(g, c, v, rank, rank(node)))
  }

  lemma NodeBounded(g: Graph, node: Node, c: TypeConstraint, rank: Rank)
    requires Ranked(g, rank) && c in Constraints(g, node)
    ensures Bounded(g, c, rank, rank(node))
  {
    forall n | n in Refs(c) && In(g, n) ensures rank(n) < rank(node) {
      assert Edge(g, node, n);
    }
  }

  /** The check finds exactly the variables that the graph reaches. */
  lemma {:induction false} ReferencesExact(g: Graph, c: TypeConstraint, v: TypeVariable, rank: Rank, bound: nat)
    requires Ranked(g, rank) && Bounded(g, c, rank, bound) && v in g.variables
    ensures References(g, c, v, rank, bound) <==> exists n :: n in Refs(c) && Reaches(g, n, VariableNode(v))
    decreases bound, 1, c
  {
    match c
    case ExtendedJSON =>
    case Scalar(_) =>
    case Object(name) => NodeReferencesExact(g, ObjectNode(name), v, rank);
    case ArrayOf(element) => ReferencesExact(g, element, v, rank, bound);
    case Predicate(name) => NodeReferencesExact(g, ObjectNode(name), v, rank);
    case Union(types) => forall t | t in types { ReferencesExact(g, t, v, rank, bound); }
    case OneOf(types) => forall t | t in types { ReferencesExact(g, t, v, rank, bound); }
    case Variable(w) => NodeReferencesExact(g, VariableNode(w), v, rank);
    case ElementOf(container) => ReferencesExact(g, container, v, rank, bound);
    case FieldOf(target, _) => ReferencesExact(g, target, v, rank, bound);
    case WithFieldOverrides(_, target, fields) =>
      ReferencesExact(g, target, v, rank, bound);
      forall f | f in fields && fields[f].Replaced? { ReferencesExact(g, fields[f].constraint, v, rank, bound); }
  }

  lemma {:induction false} NodeReferencesExact(g: Graph, node: Node, v: TypeVariable, rank: Rank)
    requires Ranked(g, rank) && v in g.variables
    ensures node == VariableNode(v) || NodeReferences(g, node, v, rank) <==> Reaches(g, node, VariableNode(v))
    decreases if In(g, node) then rank(node) + 1 else 0, 0
  {
    var target := VariableNode(v);
    ReachesSelf(g, target);
    if In(g, node) {
      forall c | c in Constraints(g, node)
        ensures Bounded(g, c, rank, rank(node))
        ensures References(g, c, v, rank, rank(node)) <==> exists n :: n in Refs(c) && Reaches(g, n, target)
      {
        NodeBounded(g, node, c, rank);
        ReferencesExact(g, c, v, rank, rank(node));
      }
    }
    if node != target && Reaches(g, node, target) {
      var y := ReachesFirstEdge(g, node, target);
    }
    if node != target && NodeReferences(g, node, v, rank) {
      var c :| c in Constraints(g, node) && References(g, c, v, rank, rank(node));
      var n :| n in Refs(c) && Reaches(g, n, target);
      if !In(g, n) {
        var y := ReachesFirstEdge(g, n, target);
      }
      ReachesByEdge(g, node, n, target);
    }
  }

  // ----- extending the graph -----

  /** A bound on the ranks of finitely many nodes. */
  ghost function RankBound(nodes: set<Node>, rank: Rank): (bound: nat)
    ensures forall n :: n in nodes ==> rank(n) < bound
  {
    if nodes == {} then 0
    else
      var n :| n in nodes;
      var rest := RankBound(nodes - {n}, rank);
      if rank(n) < rest then rest else rank(n) + 1
  }

  /** The constraint leads to the variable. */
  ghost predicate LeadsTo(g: Graph, c: TypeConstraint, v: TypeVariable) {
    exists n :: n in Refs(c) && Reaches(g, n, VariableNode(v))
  }

  predicate RefersTo(g: Graph, x: Node, node: Node) {
    exists c :: c in Constraints(g, x) && node in Refs(c)
  }

  /** Following references from `n` one comes to mention the node, which need not be in the graph yet. */
  ghost predicate LeadsBack(g: Graph, n: Node, node: Node) {
    n == node || exists x :: Reaches(g, n, x) && RefersTo(g, x, node)
  }

  /** The graphs agree but for the constraints of one node, which the second has in any case. */
  ghost predicate Replaces(g: Graph, g': Graph, node: Node) {
    && (forall x :: In(g', x) <==> x == node || In(g, x))
    && (forall x :: x != node ==> Constraints(g', x) == Constraints(g, x))
  }

  /** None of the node's constraints leads back to it. */
  ghost predicate NoneLeadsBack(g: Graph, cs: set<TypeConstraint>, node: Node) {
    forall c, n :: c in cs && n in Refs(c) ==> !LeadsBack(g, n, node)
  }

  function AllRefs(cs: set<TypeConstraint>): set<Node> {
    set c, n | c in cs && n in Refs(c) :: n
  }

  /** The ranking after the node got constraints that do not lead back to it: what leads to it moves above it. */
  ghost function RankReplaced(g: Graph, node: Node, cs: set<TypeConstraint>, rank: Rank): Rank {
    var bound := RankBound(AllRefs(cs), rank);
    x => if x == node then bound else rank(x) + if LeadsBack(g, x, node) then bound + 1 else 0
  }

  lemma LeadsBackByEdge(g: Graph, x: Node, y: Node, node: Node)
    requires Edge(g, x, y) && LeadsBack(g, y, node)
    ensures LeadsBack(g, x, node)
  {
    ReachesSelf(g, x);
    if y != node {
      var z :| Reaches(g, y, z) && RefersTo(g, z, node);
      ReachesByEdge(g, x, y, z);
    }
  }

  lemma ReplacedRanked(g: Graph, g': Graph, node: Node, rank: Rank)
    requires Ranked(g, rank) && Replaces(g, g', node) && NoneLeadsBack(g, Constraints(g', node), node)
    ensures Ranked(g', RankReplaced(g, node, Constraints(g', node), rank))
  {
    var rank' := RankReplaced(g, node, Constraints(g', node), rank);
    forall x, y | Edge(g', x, y) ensures rank'(x) > rank'(y) {
      var c :| c in Constraints(g', x) && y in Refs(c);
      if x == node {
        assert y in AllRefs(Constraints(g', node)) && !LeadsBack(g, y, node);
      } else if y == node {
        ReachesSelf(g, x);
        assert RefersTo(g, x, node);
        assert LeadsBack(g, x, node);
      } else {
        assert Edge(g, x, y);
        if LeadsBack(g, y, node) { LeadsBackByEdge(g, x, y, node); }
      }
    }
  }

  /** A path along which one comes to mention the node leads to the node in the new graph. */
  lemma {:induction false} PathLeadsBack(g: Graph, g': Graph, node: Node, path: seq<Node>)
    requires Replaces(g, g', node) && IsPath(g, path)
    requires path[|path| - 1] == node || RefersTo(g, path[|path| - 1], node)
    ensures Reaches(g', path[0], node)
  {
    ReachesSelf(g', node);
    if path[0] != node {
      if |path| == 1 {
        assert Edge(g', path[0], node);
        ReachesByEdge(g', path[0], node, node);
      } else {
        TailIsPath(g, path);
        PathLeadsBack(g, g', node, path[1..]);
        assert Edge(g, path[0], path[1]);
        assert Edge(g', path[0], path[1]);
        ReachesByEdge(g', path[0], path[1], node);
      }
    }
  }

  lemma EdgeAndBack(g: Graph, x: Node, y: Node)
    requires Edge(g, x, y) && Reaches(g, y, x)
    ensures !Acyclic(g)
  {
    var path :| IsPath(g, path) && path[0] == y && path[|path| - 1] == x;
    var cycle := [x] + path;
    forall i | 0 <= i < |cycle| - 1 ensures Edge(g, cycle[i], cycle[i + 1]) {
      if i > 0 { assert Edge(g, path[i - 1], path[i]); }
    }
    assert IsPath(g, cycle) && cycle[0] == cycle[|cycle| - 1];
  }

  lemma ReplacedLeadsBack(g: Graph, g': Graph, node: Node, c: TypeConstraint, n: Node)
    requires Replaces(g, g', node) && c in Constraints(g', node) && n in Refs(c) && LeadsBack(g, n, node)
    ensures Edge(g', node, n) && Reaches(g', n, node)
  {
    ReachesSelf(g', node);
    if n != node {
      var x :| Reaches(g, n, x) && RefersTo(g, x, node);
      var path :| IsPath(g, path) && path[0] == n && path[|path| - 1] == x;
      PathLeadsBack(g, g', node, path);
      assert |path| > 1 ==> Edge(g, path[0], path[1]);
      assert In(g, n);
    }
  }

  /**
   A node of an acyclic graph gets new constraints, or is added: the graph stays acyclic exactly if none
   of the constraints leads back to the node.
   */
  lemma ReplaceExact(g: Graph, g': Graph, node: Node, rank: Rank)
    requires Ranked(g, rank) && Replaces(g, g', node)
    ensures Acyclic(g') <==> NoneLeadsBack(g, Constraints(g', node), node)
    ensures Acyclic(g') ==> Ranked(g', RankReplaced(g, node, Constraints(g', node), rank))
  {
    if NoneLeadsBack(g, Constraints(g', node), node) {
      ReplacedRanked(g, g', node, rank);
      RankedAcyclic(g', RankReplaced(g, node, Constraints(g', node), rank));
    } else {
      var c, n :| c in Constraints(g', node) && n in Refs(c) && LeadsBack(g, n, node);
      ReplacedLeadsBack(g, g', node, c, n);
      EdgeAndBack(g', node, n);
    }
  }

  // ----- constraints on a variable -----

  function Constrained(g: Graph, v: TypeVariable, cs: set<TypeConstraint>): Graph
    requires v in g.variables
  {
    g.(variables := g.variables[v := g.variables[v] + cs])
  }

  lemma ReachesTrans(g: Graph, x: Node, y: Node, z: Node)
    requires Reaches(g, x, y) && Reaches(g, y, z)
    ensures Reaches(g, x, z)
  {
    var path :| IsPath(g, path) && path[0] == x && path[|path| - 1] == y;
    PathReaches(g, path, z);
  }

  lemma {:induction false} PathReaches(g: Graph, path: seq<Node>, z: Node)
    requires IsPath(g, path) && Reaches(g, path[|path| - 1], z)
    ensures Reaches(g, path[0], z)
  {
    if |path| > 1 {
      TailIsPath(g, path);
      PathReaches(g, path[1..], z);
      assert Edge(g, path[0], path[1]);
      ReachesByEdge(g, path[0], path[1], z);
    }
  }

  /** To mention a node of the graph is to reach it. */
  lemma LeadsBackReaches(g: Graph, n: Node, node: Node)
    requires In(g, node)
    ensures LeadsBack(g, n, node) <==> Reaches(g, n, node)
  {
    ReachesSelf(g, node);
    if n != node && LeadsBack(g, n, node) {
      var x :| Reaches(g, n, x) && RefersTo(g, x, node);
      assert Edge(g, x, node);
      ReachesByEdge(g, x, node, node);
      ReachesTrans(g, n, x, node);
    }
    if n != node && Reaches(g, n, node) {
      var path :| IsPath(g, path) && path[0] == n && path[|path| - 1] == node;
      LastEdge(g, path);
    }
  }

  lemma LastEdge(g: Graph, path: seq<Node>)
    requires IsPath(g, path) && |path| > 1
    ensures var x := path[|path| - 2]; Reaches(g, path[0], x) && RefersTo(g, x, path[|path| - 1])
  {
    var init := path[..|path| - 1];
    forall i | 0 <= i < |init| - 1 ensures Edge(g, init[i], init[i + 1]) {
      assert Edge(g, path[i], path[i + 1]);
    }
    assert IsPath(g, init) && init[|init| - 1] == path[|path| - 2];
    assert Edge(g, path[|path| - 2], path[|path| - 1]);
  }

  /**
   Constraints are added to a variable: the graph stays acyclic exactly if none of them leads to the
   variable, which is what the occurs check finds out.
   */
  lemma AddConstraints(g: Graph, v: TypeVariable, cs: set<TypeConstraint>, rank: Rank)
    requires Ranked(g, rank) && v in g.variables
    ensures var g', node := Constrained(g, v, cs), VariableNode(v);
      && (Acyclic(g') <==> forall c :: c in cs ==> !LeadsTo(g, c, v))
      && (Acyclic(g') ==> Ranked(g', RankReplaced(g, node, Constraints(g', node), rank)))
  {
    var g', node := Constrained(g, v, cs), VariableNode(v);
    ReplaceExact(g, g', node, rank);
    RankedAcyclic(g, rank);
    forall c, n | c in Constraints(g', node) && n in Refs(c)
      ensures LeadsBack(g, n, node) <==> Reaches(g, n, node)
      ensures Reaches(g, n, node) ==> c in cs
    {
      LeadsBackReaches(g, n, node);
      if Reaches(g, n, node) && c in g.variables[v] {
        ReachesIn(g, n, node);
        assert Edge(g, node, n);
        EdgeAndBack(g, node, n);
      }
    }
    forall c, n | c in cs && n in Refs(c)
      ensures c in Constraints(g', node) && (LeadsBack(g, n, node) <==> Reaches(g, n, node))
    {
      LeadsBackReaches(g, n, node);
    }
  }

  lemma ReachesIn(g: Graph, x: Node, y: Node)
    requires Reaches(g, x, y) && In(g, y)
    ensures In(g, x)
  {
    if x != y {
      var z := ReachesFirstEdge(g, x, y);
    }
  }

  // ----- inserting an object type -----

  function WithObject(g: Graph, name: string, fields: map<string, TypeConstraint>): Graph {
    g.(objects := g.objects[name := fields])
  }

  /** No field of the object type leads back to its name. */
  ghost predicate NoFieldLeadsBack(g: Graph, name: string, fields: map<string, TypeConstraint>) {
    forall f, n :: f in fields && n in Refs(fields[f]) ==> !LeadsBack(g, n, ObjectNode(name))
  }

  /**
   An object type is inserted, maybe in place of another and maybe referred to already: the graph stays
   acyclic exactly if no field leads back to the name.
   */
  lemma InsertObject(g: Graph, name: string, fields: map<string, TypeConstraint>, rank: Rank)
    requires Ranked(g, rank)
    ensures var g', node := WithObject(g, name, fields), ObjectNode(name);
      && (Acyclic(g') <==> NoFieldLeadsBack(g, name, fields))
      && (Acyclic(g') ==> Ranked(g', RankReplaced(g, node, Constraints(g', node), rank)))
  {
    var g', node := WithObject(g, name, fields), ObjectNode(name);
    forall x | x != node ensures Constraints(g', x) == Constraints(g, x) && (In(g', x) <==> In(g, x)) {
    }
    ReplaceExact(g, g', node, rank);
    assert Constraints(g', node) == set f | f in fields :: fields[f];
  }

  /** A node without references reaches only itself. */
  lemma SinkReaches(g: Graph, x: Node, z: Node)
    requires forall y :: !Edge(g, x, y)
    ensures Reaches(g, x, z) <==> x == z
  {
    ReachesSelf(g, x);
    if Reaches(g, x, z) && x != z {
      var y := ReachesFirstEdge(g, x, z);
    }
  }

  /** Nothing refers to the node. */
  ghost predicate Unreferenced(g: Graph, node: Node) {
    forall x, c :: c in Constraints(g, x) ==> node !in Refs(c)
  }

  /** A node that nothing refers to is mentioned only by its own new constraints. */
  lemma UnreferencedLeadsBack(g: Graph, n: Node, node: Node)
    requires Unreferenced(g, node)
    ensures LeadsBack(g, n, node) <==> n == node
  {
  }
}
