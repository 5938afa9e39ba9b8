/**
 Where sampled documents do not inhabit the inferred types: undefined values next to others, and
 nested documents whose generated type names collide. Both conditions are exact.
 */
module SamplingLimits {
  import opened BsonScalars
  import opened SchemaTypes
  import opened TypeUnification
  import opened ObjectTypes
  import opened Sampling

  /** A sample of one document. */
  ghost predicate Inhabits(name: string, doc: seq<Field>, allNullable: bool) {
    HasType(SampledEnv(name, [doc], allNullable), Document(doc), Object(name))
  }

  lemma SingleSample(name: string, doc: seq<Field>, allNullable: bool)
    ensures SampledEnv(name, [doc], allNullable) == DocumentEnv(name, doc, true, allNullable)
  {
    assert [doc][..0] == [];
    UnifyEnvsEmpty(DocumentEnv(name, doc, true, allNullable));
  }

  // ----- undefined values -----

  lemma PairType(name: string, value: Bson)
    ensures ElementType(name, [Leaf(UndefinedValue), value]) == TypeOf(name, value)
  {
    var elements, first := [Leaf(UndefinedValue), value], [Leaf(UndefinedValue)];
    assert elements[..1] == first && first[..0] == [];
    assert ElementType(name, first) == Unify(Scalar(Undefined), Scalar(Undefined)) == Scalar(Undefined);
    TypeOfNormal(name, value);
    NormalizeNormal(TypeOf(name, value));
  }

  lemma UndefinedMisfit(env: Env, name: string, neighbour: Bson, t: Type)
    requires Proper(neighbour)
    requires t == ArrayOf(TypeOf(name, neighbour)) || t == Nullable(ArrayOf(TypeOf(name, neighbour)))
    ensures !HasType(env, Array([Leaf(UndefinedValue), neighbour]), t)
  {
    var elements := [Leaf(UndefinedValue), neighbour];
    assert !HasType(env, elements[0], TypeOf(name, neighbour));
    assert !HasType(env, Array(elements), ArrayOf(TypeOf(name, neighbour)));
  }

  lemma UndefinedNeighbour(name: string, field: string, neighbour: Bson, allNullable: bool)
    requires Proper(neighbour)
    ensures !Inhabits(name, [Field(field, Array([Leaf(UndefinedValue), neighbour]))], allNullable)
  {
    var value := Array([Leaf(UndefinedValue), neighbour]);
    var doc := [Field(field, value)];
    var env := DocumentEnv(name, doc, true, allNullable);
    SingleSample(name, doc, allNullable);
    PairType(name + "_" + field, neighbour);
    FieldTypesExact(name, doc, true, allNullable, 0);
    UndefinedMisfit(env, name + "_" + field, neighbour, env[name][field]);
    assert Document(doc).fields[0] == Field(field, value);
  }

  /**
   A leaf next to any proper value: the sampled array inhabits the inferred type exactly if the leaf is
   not undefined.
   */
  lemma NeighbourExact(name: string, field: string, leaf: BsonLeaf, neighbour: Bson, allNullable: bool)
    requires Proper(neighbour) && NoClash(name + "_" + field, neighbour)
    ensures Inhabits(name, [Field(field, Array([Leaf(leaf), neighbour]))], allNullable) <==> leaf != UndefinedValue
  {
    if leaf != UndefinedValue {
      SamplingSound(name, [[Field(field, Array([Leaf(leaf), neighbour]))]], allNullable, 0);
    } else {
      UndefinedNeighbour(name, field, neighbour, allNullable);
    }
  }

  // ----- colliding type names -----

  /** The name of the type generated for the document at a path of field names. */
  function PathName(name: string, path: seq<string>): string
    decreases |path|
  {
    if path == [] then name else PathName(name + "_" + path[0], path[1..])
  }

  /** Documents nested along the path, the innermost with the given fields. */
  function Nested(path: seq<string>, fields: seq<Field>): seq<Field> {
    if path == [] then fields else [Field(path[0], Document(Nested(path[1..], fields)))]
  }

  /** A document that forks, below the path, into two branches of nested documents. */
  function Forked(path: seq<string>, f: string, s: seq<string>, x: seq<Field>, g: string, t: seq<string>,
                  y: seq<Field>): seq<Field> {
    Nested(path, [Field(f, Document(Nested(s, x))), Field(g, Document(Nested(t, y)))])
  }

  /** Some document on one branch gets the same type name as one on the other. */
  ghost predicate Collide(name: string, f: string, s: seq<string>, g: string, t: seq<string>) {
    exists i, j :: 0 <= i <= |s| && 0 <= j <= |t| &&
      PathName(name + "_" + f, s[..i]) == PathName(name + "_" + g, t[..j])
  }

  /** Distinct keys, and values that are neither documents nor arrays nor undefined. */
  predicate LeafFields(fields: seq<Field>) {
    && UniqueKeys(fields)
    && forall i :: 0 <= i < |fields| ==> fields[i].value.Leaf? && fields[i].value != Leaf(UndefinedValue)
  }

  // --- no collision, no clash

  lemma {:induction false} LeafFieldNames(name: string, fields: seq<Field>)
    requires LeafFields(fields)
    ensures FieldNames(name, fields) == {}
  {
    if fields != [] {
      LeafFieldNames(name, fields[..|fields| - 1]);
    }
  }

  lemma SingleFieldNames(name: string, field: Field)
    ensures FieldNames(name, [field]) == NamesOf(name + "_" + field.name, field.value)
  {
    assert [field][..0] == [];
  }

  lemma {:induction false} NestedNames(name: string, path: seq<string>, fields: seq<Field>, k: string)
    requires LeafFields(fields)
    ensures k in NamesOf(name, Document(Nested(path, fields)))
       <==> exists i :: 0 <= i <= |path| && k == PathName(name, path[..i])
    decreases |path|
  {
    if path == [] {
      LeafFieldNames(name, fields);
      assert PathName(name, path[..0]) == name;
    } else {
      var next, rest := name + "_" + path[0], path[1..];
      SingleFieldNames(name, Nested(path, fields)[0]);
      NestedNames(next, rest, fields, k);
      assert PathName(name, path[..0]) == name;
      forall i | 0 <= i < |path| ensures PathName(name, path[..i + 1]) == PathName(next, rest[..i]) {
        assert path[..i + 1][1..] == rest[..i];
      }
      if exists i :: 0 <= i <= |rest| && k == PathName(next, rest[..i]) {
        var i :| 0 <= i <= |rest| && k == PathName(next, rest[..i]);
        assert k == PathName(name, path[..i + 1]);
      }
      if exists i :: 0 < i <= |path| && k == PathName(name, path[..i]) {
        var i :| 0 < i <= |path| && k == PathName(name, path[..i]);
        assert k == PathName(next, rest[..i - 1]);
      }
    }
  }

  lemma {:induction false} NestedNoClash(name: string, path: seq<string>, fields: seq<Field>)
    requires Proper(Document(fields)) && NoClash(PathName(name, path), Document(fields))
    ensures Proper(Document(Nested(path, fields))) && NoClash(name, Document(Nested(path, fields)))
    decreases |path|
  {
    if path != [] {
      NestedNoClash(name + "_" + path[0], path[1..], fields);
    }
  }

  lemma ForkNoClash(name: string, f: string, s: seq<string>, x: seq<Field>, g: string, t: seq<string>, y: seq<Field>)
    requires f != g && LeafFields(x) && LeafFields(y) && !Collide(name, f, s, g, t)
    ensures var fork := Document(Forked([], f, s, x, g, t, y)); Proper(fork) && NoClash(name, fork)
  {
    var fork := Forked([], f, s, x, g, t, y);
    NestedNoClash(name + "_" + f, s, x);
    NestedNoClash(name + "_" + g, t, y);
    forall k | k in NamesOf(name + "_" + f, fork[0].value) ensures k !in NamesOf(name + "_" + g, fork[1].value) {
      NestedNames(name + "_" + f, s, x, k);
      NestedNames(name + "_" + g, t, y, k);
    }
  }

  // --- a collision is a misfit

  /** The type is the object type, or a nullable one. */
  predicate RefersTo(t: Type, name: string) {
    t == Object(name) || t == Nullable(Object(name))
  }

  /** The environment describes the documents along a path as they are. */
  ghost predicate Describes(env: Env, name: string, path: seq<string>, last: set<string>)
    decreases |path|
  {
    name in env &&
    if path == [] then env[name].Keys == last
    else
      var next := name + "_" + path[0];
      env[name].Keys == {path[0]} && RefersTo(env[name][path[0]], next) && Describes(env, next, path[1..], last)
  }

  function Keys(fields: seq<Field>): set<string> {
    set i | 0 <= i < |fields| :: fields[i].name
  }

  lemma {:induction false} FieldTypesKeys(name: string, fields: seq<Field>, isCollection: bool, allNullable: bool)
    ensures FieldTypes(name, fields, isCollection, allNullable).Keys == Keys(fields)
  {
    if fields != [] {
      var init := fields[..|fields| - 1];
      FieldTypesKeys(name, init, isCollection, allNullable);
      assert Keys(fields) == Keys(init) + {fields[|fields| - 1].name};
    }
  }

  lemma OneMore(name: string, init: seq<Field>, field: Field, isCollection: bool, allNullable: bool)
    ensures FieldsEnv(name, init + [field], allNullable)
         == FieldsEnv(name, init, allNullable) + EnvOf(name + "_" + field.name, field.value, allNullable)
    ensures FieldTypes(name, init + [field], isCollection, allNullable)
         == FieldTypes(name, init, isCollection,
                       allNullable)[field.name := InferredField(name, field, isCollection, allNullable)]
  {
    assert (init + [field])[..|init|] == init;
  }

  /** The inferred types of a document with one field. */
  lemma SingleFieldEnv(name: string, field: Field, isCollection: bool, allNullable: bool)
    ensures var env, own := DocumentEnv(name, [field], isCollection, allNullable),
                            EnvOf(name + "_" + field.name, field.value, allNullable);
      && env == own[name := map[field.name := InferredField(name, field, isCollection, allNullable)]]
      && name !in own
  {
    OwnNameFresh(name, [field]);
    OneMore(name, [], field, isCollection, allNullable);
    assert [] + [field] == [field];
    FieldsEnvNames(name, [field], allNullable);
  }

  /** The innermost types stay as they are when documents are put around. */
  lemma {:induction false} NestedEnv(name: string, path: seq<string>, fields: seq<Field>, isCollection: bool,
                                     allNullable: bool)
    ensures var env := DocumentEnv(name, Nested(path, fields), isCollection, allNullable);
      var inner := DocumentEnv(PathName(name, path), fields, isCollection && path == [], allNullable);
      && Describes(env, name, path, Keys(fields))
      && forall k :: k in inner ==> k in env && env[k] == inner[k]
    decreases |path|
  {
    if path == [] {
      FieldTypesKeys(name, fields, isCollection, allNullable);
    } else {
      var next, field := name + "_" + path[0], Nested(path, fields)[0];
      var env, own := DocumentEnv(name, [field], isCollection, allNullable), EnvOf(next, field.value, allNullable);
      NestedEnv(next, path[1..], fields, false, allNullable);
      SingleFieldEnv(name, field, isCollection, allNullable);
      DescribesMore(own, env, next, path[1..], Keys(fields));
    }
  }

  lemma {:induction false} DescribesMore(env: Env, env': Env, name: string, path: seq<string>, last: set<string>)
    requires Describes(env, name, path, last)
    requires forall k :: k in env ==> k in env' && env'[k] == env[k]
    ensures Describes(env', name, path, last)
    decreases |path|
  {
    if path != [] {
      DescribesMore(env, env', name + "_" + path[0], path[1..], last);
    }
  }

  lemma {:induction false} DescribesFrom(env: Env, name: string, path: seq<string>, last: set<string>, i: nat)
    requires Describes(env, name, path, last) && i <= |path|
    ensures Describes(env, PathName(name, path[..i]), path[i..], last)
    decreases |path|
  {
    if i > 0 {
      DescribesFrom(env, name + "_" + path[0], path[1..], last, i - 1);
      assert path[..i][1..] == path[1..][..i - 1] && path[1..][i - 1..] == path[i..];
    }
  }

  /** The test document: one integer field. */
  function Probe(y: string): seq<Field> {
    [Field(y, Leaf(Int32))]
  }

  /** A branch that ends in the probe does not fit types that describe a branch without its field. */
  lemma {:induction false} Misfit(env: Env, name: string, s: seq<string>, y: string, t: seq<string>)
    requires Describes(env, name, t, {}) && y !in t
    ensures !HasType(env, Document(Nested(s, Probe(y))), Object(name))
    decreases |s|
  {
    var fields := Nested(s, Probe(y));
    assert fields[0].name == if s == [] then y else s[0];
    if s != [] && t != [] && s[0] == t[0] {
      Misfit(env, name + "_" + s[0], s[1..], y, t[1..]);
      assert !HasType(env, fields[0].value, env[name][s[0]]);
    } else {
      assert fields[0].name !in env[name];
    }
  }

  /** A branch one of whose documents is described as a document of the other branch does not fit. */
  lemma {:induction false} Overridden(env: Env, own: Env, other: Env, name: string, s: seq<string>, y: string,
                                      base: string, t: seq<string>, i: nat, j: nat)
    requires Describes(own, name, s, {y}) && Describes(other, base, t, {}) && y !in t
    requires forall k :: k in other ==> k in env && env[k] == other[k]
    requires forall k :: k in own && k !in other ==> k in env && env[k] == own[k]
    requires forall k :: k in other ==> exists j :: 0 <= j <= |t| && k == PathName(base, t[..j])
    requires i <= |s| && j <= |t| && PathName(name, s[..i]) == PathName(base, t[..j])
    ensures !HasType(env, Document(Nested(s, Probe(y))), Object(name))
    decreases |s|
  {
    if name in other {
      var m :| 0 <= m <= |t| && name == PathName(base, t[..m]);
      DescribesMore(other, env, base, t, {});
      DescribesFrom(env, base, t, {}, m);
      Misfit(env, name, s, y, t[m..]);
    } else {
      DescribesFrom(other, base, t, {}, j);
      assert i > 0;
      var fields := Nested(s, Probe(y));
      assert s[..i][1..] == s[1..][..i - 1];
      Overridden(env, own, other, name + "_" + s[0], s[1..], y, base, t, i - 1, j);
      assert !HasType(env, fields[0].value, env[name][s[0]]);
    }
  }

  function Longer(t: seq<string>): string {
    if t == [] then "x" else t[0] + Longer(t[1..])
  }

  lemma {:induction false} LongerIsFresh(t: seq<string>)
    ensures forall k :: k in t ==> |k| < |Longer(t)|
  {
    if t != [] {
      LongerIsFresh(t[1..]);
      assert t == [t[0]] + t[1..];
    }
  }

  /** The types of a fork: those of the second branch, and those of the first that are not replaced. */
  lemma ForkEnv(name: string, f: Field, g: Field, isCollection: bool, allNullable: bool)
    ensures var env := DocumentEnv(name, [f, g], isCollection, allNullable);
      var own := EnvOf(name + "_" + f.name, f.value, allNullable);
      var other := EnvOf(name + "_" + g.name, g.value, allNullable);
      && (forall k :: k in other ==> k in env && env[k] == other[k])
      && (forall k :: k in own && k !in other ==> k in env && env[k] == own[k])
  {
    OwnNameFresh(name, [f, g]);
    FieldsEnvNames(name, [f, g], allNullable);
    ForkFields(name, f, g, allNullable);
  }

  lemma ForkFields(name: string, f: Field, g: Field, allNullable: bool)
    ensures FieldsEnv(name, [f, g], allNullable)
         == EnvOf(name + "_" + f.name, f.value, allNullable) + EnvOf(name + "_" + g.name, g.value, allNullable)
  {
    OneMore(name, [], f, false, allNullable);
    OneMore(name, [f], g, false, allNullable);
    assert [] + [f] == [f] && [f] + [g] == [f, g];
  }

  lemma BranchMisfit(env: Env, name: string, f: string, s: seq<string>, g: string, t: seq<string>, y: string,
                     allNullable: bool)
    requires Collide(name, f, s, g, t) && y !in t
    requires var own, other := EnvOf(name + "_" + f, Document(Nested(s, Probe(y))), allNullable),
                               EnvOf(name + "_" + g, Document(Nested(t, [])), allNullable);
      && (forall k :: k in other ==> k in env && env[k] == other[k])
      && (forall k :: k in own && k !in other ==> k in env && env[k] == own[k])
    ensures !HasType(env, Document(Nested(s, Probe(y))), Object(name + "_" + f))
  {
    var a, b := name + "_" + f, name + "_" + g;
    var own := EnvOf(a, Document(Nested(s, Probe(y))), allNullable);
    var other := EnvOf(b, Document(Nested(t, [])), allNullable);
    NestedEnv(a, s, Probe(y), false, allNullable);
    NestedEnv(b, t, [], false, allNullable);
    var none: seq<Field> := [];
    assert Keys(Probe(y)) == {y} && Keys(none) == {};
    EnvNames(b, Document(Nested(t, [])), allNullable);
    forall k | k in other ensures exists j :: 0 <= j <= |t| && k == PathName(b, t[..j]) {
      NestedNames(b, t, [], k);
    }
    var i, j :| 0 <= i <= |s| && 0 <= j <= |t| && PathName(a, s[..i]) == PathName(b, t[..j]);
    Overridden(env, own, other, a, s, y, b, t, i, j);
  }

  /** The fork does not fit, also in a larger environment. */
  lemma ForkMisfit(env: Env, name: string, f: string, s: seq<string>, g: string, t: seq<string>, y: string,
                   isCollection: bool, allNullable: bool)
    requires f != g && Collide(name, f, s, g, t) && y !in t
    requires var fork := [Field(f, Document(Nested(s, Probe(y)))), Field(g, Document(Nested(t, [])))];
      var inner := DocumentEnv(name, fork, isCollection, allNullable);
      forall k :: k in inner ==> k in env && env[k] == inner[k]
    ensures var fork := [Field(f, Document(Nested(s, Probe(y)))), Field(g, Document(Nested(t, [])))];
      !HasType(env, Document(fork), Object(name))
  {
    var fork := [Field(f, Document(Nested(s, Probe(y)))), Field(g, Document(Nested(t, [])))];
    FieldTypesExact(name, fork, isCollection, allNullable, 0);
    ForkEnv(name, fork[0], fork[1], isCollection, allNullable);
    BranchMisfit(env, name, f, s, g, t, y, allNullable);
    assert RefersTo(env[name][fork[0].name], name + "_" + f);
    assert !HasType(env, fork[0].value, env[name][fork[0].name]);
  }

  /** A document that fits has at every path documents that fit. */
  lemma {:induction false} FitsInside(env: Env, name: string, path: seq<string>, fields: seq<Field>)
    requires Describes(env, name, path, Keys(fields)) && HasType(env, Document(Nested(path, fields)), Object(name))
    ensures HasType(env, Document(fields), Object(PathName(name, path)))
    decreases |path|
  {
    if path != [] {
      var field := Nested(path, fields)[0];
      assert HasType(env, field.value, env[name][path[0]]);
      FitsInside(env, name + "_" + path[0], path[1..], fields);
    }
  }

  /** All documents of this form, with leaf fields at the ends, inhabit the types sampled from them. */
  ghost predicate ForksInhabit(name: string, path: seq<string>, f: string, s: seq<string>, g: string, t: seq<string>,
                               allNullable: bool) {
    forall x, y :: LeafFields(x) && LeafFields(y) ==> Inhabits(name, Forked(path, f, s, x, g, t, y), allNullable)
  }

  lemma CollisionMisfits(name: string, path: seq<string>, f: string, s: seq<string>, g: string, t: seq<string>,
                         allNullable: bool)
    requires f != g && Collide(PathName(name, path), f, s, g, t)
    ensures !ForksInhabit(name, path, f, s, g, t, allNullable)
  {
    var y := Longer(t);
    LongerIsFresh(t);
    var fork := [Field(f, Document(Nested(s, Probe(y)))), Field(g, Document(Nested(t, [])))];
    var doc := Forked(path, f, s, Probe(y), g, t, []);
    var env := SampledEnv(name, [doc], allNullable);
    SingleSample(name, doc, allNullable);
    NestedEnv(name, path, fork, true, allNullable);
    ForkMisfit(env, PathName(name, path), f, s, g, t, y, path == [], allNullable);
    if Inhabits(name, doc, allNullable) {
      FitsInside(env, name, path, fork);
    }
    assert LeafFields(Probe(y)) && LeafFields([]);
  }

  /**
   Two paths of field names that part after a common beginning: the documents along them inhabit the
   types sampled from them, whatever leaf fields they end in, exactly if no document on one path gets
   the same type name as one on the other.
   */
  lemma ClashExact(name: string, path: seq<string>, f: string, s: seq<string>, g: string, t: seq<string>,
                   allNullable: bool)
    requires f != g
    ensures ForksInhabit(name, path, f, s, g, t, allNullable) <==> !Collide(PathName(name, path), f, s, g, t)
  {
    if Collide(PathName(name, path), f, s, g, t) {
      CollisionMisfits(name, path, f, s, g, t, allNullable);
    } else {
      forall x, y | LeafFields(x) && LeafFields(y)
        ensures Inhabits(name, Forked(path, f, s, x, g, t, y), allNullable)
      {
        ForkNoClash(PathName(name, path), f, s, x, g, t, y);
        NestedNoClash(name, path, Forked([], f, s, x, g, t, y));
        SamplingSound(name, [Forked(path, f, s, x, g, t, y)], allNullable, 0);
      }
    }
  }

  /** Documents at `a.b` and at `a_b` share a type. */
  lemma UnderscoreCollides(name: string, allNullable: bool)
    ensures !ForksInhabit(name, [], "a", ["b"], "a_b", [], allNullable)
  {
    var s, t: seq<string> := ["b"], [];
    assert s[..1] == s && t[..0] == t && s[1..] == [];
    assert name + "_" + "a" + "_" + "b" == name + "_" + "a_b";
    assert PathName(name + "_" + "a", s[..1]) == PathName(name + "_" + "a_b", t[..0]);
    ClashExact(name, [], "a", ["b"], "a_b", [], allNullable);
  }
}
