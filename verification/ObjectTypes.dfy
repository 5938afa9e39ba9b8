/**
 Unification of object types and of sets of named object types. Both are again least upper bounds:
 a field that is missing on one side counts as a field of type nullable `Undefined`.
 */
module ObjectTypes {
  import opened BsonScalars
  import opened SchemaTypes
  import opened TypeUnification
  import opened Aligning

  /** The fields of an object type. */
  type ObjectType = map<string, Type>

  /** Named object types. */
  type Env = map<string, ObjectType>

  // ----- unification -----

  function UnifyObjects(a: ObjectType, b: ObjectType): ObjectType {
    Merged(a, b, MakeNullable, MakeNullable, Unify)
  }

  function Identity(o: ObjectType): ObjectType {
    o
  }

  function UnifyEnvs(a: Env, b: Env): Env {
    Merged(a, b, Identity, Identity, UnifyObjects)
  }

  /** Collects a list of named values; a later value replaces an earlier one of the same name. */
  function Collect<V>(entries: seq<(string, V)>): (m: IndexMap<string, V>)
    ensures Distinct(m) && ToMap(m) == ToMap(entries)
  {
    if entries == [] then []
    else
      var init, last := entries[..|entries| - 1], entries[|entries| - 1];
      InsertIsUpdate(Collect(init), last.0, last.1);
      Insert(Collect(init), last.0, last.1)
  }

  method UnifyObjectType(a: IndexMap<string, Type>, b: IndexMap<string, Type>) returns (fields: IndexMap<string, Type>)
    requires Distinct(a) && Distinct(b)
    ensures Distinct(fields) && ToMap(fields) == UnifyObjects(ToMap(a), ToMap(b))
  {
    fields := Align(a, b, MakeNullable, MakeNullable, Unify);
  }

  method UnifyObjectTypes(a: seq<(string, ObjectType)>, b: seq<(string, ObjectType)>)
      returns (types: seq<(string, ObjectType)>)
    ensures Distinct(types) && ToMap(types) == UnifyEnvs(ToMap(a), ToMap(b))
  {
    types := Align(Collect(a), Collect(b), Identity, Identity, UnifyObjects);
  }

  // ----- order -----

  predicate NormalObject(o: ObjectType) {
    forall f :: f in o ==> Normal(o[f])
  }

  predicate NormalEnv(e: Env) {
    forall n :: n in e ==> NormalObject(e[n])
  }

  const MISSING: Type := Nullable(Scalar(Undefined))

  function FieldType(o: ObjectType, f: string): Type {
    if f in o then o[f] else MISSING
  }

  predicate ObjectBelow(a: ObjectType, b: ObjectType) {
    a.Keys <= b.Keys && forall f :: f in b ==> Below(FieldType(a, f), b[f])
  }

  predicate EnvBelow(a: Env, b: Env) {
    a.Keys <= b.Keys && forall n :: n in a ==> ObjectBelow(a[n], b[n])
  }

  lemma ObjectBelowReflexive(a: ObjectType)
    ensures ObjectBelow(a, a)
  {
    forall f | f in a ensures Below(FieldType(a, f), a[f]) {
      BelowReflexive(a[f]);
    }
  }

  lemma ObjectBelowTransitive(a: ObjectType, b: ObjectType, c: ObjectType)
    requires NormalObject(a) && NormalObject(b) && NormalObject(c)
    requires ObjectBelow(a, b) && ObjectBelow(b, c)
    ensures ObjectBelow(a, c)
  {
    forall f | f in c ensures Below(FieldType(a, f), c[f]) {
      if f in b {
        BelowTransitive(FieldType(a, f), b[f], c[f]);
      }
    }
  }

  lemma ObjectBelowAntisymmetric(a: ObjectType, b: ObjectType)
    requires NormalObject(a) && NormalObject(b)
    requires ObjectBelow(a, b) && ObjectBelow(b, a)
    ensures a == b
  {
    assert a.Keys == b.Keys;
    forall f | f in a ensures a[f] == b[f] {
      assert f in b;
      BelowAntisymmetric(a[f], b[f]);
    }
  }

  lemma UnifyNormalIsLub(a: Type, b: Type, c: Type)
    requires Normal(a) && Normal(b) && Normal(c)
    ensures Normal(Unify(a, b))
    ensures Below(a, Unify(a, b)) && Below(b, Unify(a, b))
    ensures Below(a, c) && Below(b, c) ==> Below(Unify(a, b), c)
  {
    UnifyNormal(a, b);
    UnifyUpper(a, b);
    UnifyIsLub(a, b, c);
    NormalizeNormal(Unify(a, b));
    NormalizeNormal(a);
    NormalizeNormal(b);
    NormalizeNormal(c);
  }

  /** Every field of a unified object type is the unification of the two field types, missing or not. */
  lemma UnifiedField(a: ObjectType, b: ObjectType, f: string)
    requires NormalObject(a) && NormalObject(b)
    ensures FieldType(UnifyObjects(a, b), f) == Unify(FieldType(a, f), FieldType(b, f))
  {
    if f in a && f !in b {
      MakeNullableIsUnify(a[f]);
    } else if f in b && f !in a {
      MakeNullableIsUnify(b[f]);
      UnifyCommutative(MISSING, b[f]);
    } else if f !in a && f !in b {
      UnifyIdempotent(MISSING);
    }
  }

  lemma UnifyObjectsIsLub(a: ObjectType, b: ObjectType, c: ObjectType)
    requires NormalObject(a) && NormalObject(b) && NormalObject(c)
    ensures NormalObject(UnifyObjects(a, b))
    ensures ObjectBelow(a, UnifyObjects(a, b)) && ObjectBelow(b, UnifyObjects(a, b))
    ensures ObjectBelow(a, c) && ObjectBelow(b, c) ==> ObjectBelow(UnifyObjects(a, b), c)
  {
    var u := UnifyObjects(a, b);
    forall f: string
      ensures Normal(FieldType(u, f))
      ensures Below(FieldType(a, f), FieldType(u, f)) && Below(FieldType(b, f), FieldType(u, f))
      ensures f in c && ObjectBelow(a, c) && ObjectBelow(b, c) ==> Below(FieldType(u, f), c[f])
    {
      UnifiedField(a, b, f);
      UnifyNormalIsLub(FieldType(a, f), FieldType(b, f), FieldType(c, f));
    }
    forall f | f in u ensures Normal(u[f]) {
      assert FieldType(u, f) == u[f];
    }
    forall f | f in u ensures Below(FieldType(a, f), u[f]) && Below(FieldType(b, f), u[f]) {
      assert FieldType(u, f) == u[f];
    }
  }

  lemma EnvBelowReflexive(a: Env)
    ensures EnvBelow(a, a)
  {
    forall n | n in a ensures ObjectBelow(a[n], a[n]) {
      ObjectBelowReflexive(a[n]);
    }
  }

  lemma EnvBelowTransitive(a: Env, b: Env, c: Env)
    requires NormalEnv(a) && NormalEnv(b) && NormalEnv(c)
    requires EnvBelow(a, b) && EnvBelow(b, c)
    ensures EnvBelow(a, c)
  {
    forall n | n in a ensures ObjectBelow(a[n], c[n]) {
      assert n in b;
      ObjectBelowTransitive(a[n], b[n], c[n]);
    }
  }

  lemma EnvBelowAntisymmetric(a: Env, b: Env)
    requires NormalEnv(a) && NormalEnv(b)
    requires EnvBelow(a, b) && EnvBelow(b, a)
    ensures a == b
  {
    assert a.Keys == b.Keys;
    forall n | n in a ensures a[n] == b[n] {
      assert n in b;
      ObjectBelowAntisymmetric(a[n], b[n]);
    }
  }

  /** The unification of two environments is their least upper bound. */
  lemma UnifyEnvsIsLub(a: Env, b: Env, c: Env)
    requires NormalEnv(a) && NormalEnv(b) && NormalEnv(c)
    ensures NormalEnv(UnifyEnvs(a, b))
    ensures EnvBelow(a, UnifyEnvs(a, b)) && EnvBelow(b, UnifyEnvs(a, b))
    ensures EnvBelow(UnifyEnvs(a, b), c) <==> EnvBelow(a, c) && EnvBelow(b, c)
  {
    var u := UnifyEnvs(a, b);
    forall n | n in u
      ensures NormalObject(u[n])
      ensures n in a ==> ObjectBelow(a[n], u[n])
      ensures n in b ==> ObjectBelow(b[n], u[n])
      ensures EnvBelow(a, c) && EnvBelow(b, c) ==> n in c && ObjectBelow(u[n], c[n])
    {
      var target := if n in c then c[n] else map[];
      if n in a && n in b {
        UnifyObjectsIsLub(a[n], b[n], target);
      } else {
        ObjectBelowReflexive(u[n]);
      }
    }
    if EnvBelow(u, c) {
      EnvBelowTransitive(a, u, c);
      EnvBelowTransitive(b, u, c);
    }
  }

  // ----- algebraic laws -----

  lemma UnifyEnvsCommutative(a: Env, b: Env)
    requires NormalEnv(a) && NormalEnv(b)
    ensures UnifyEnvs(a, b) == UnifyEnvs(b, a)
  {
    var l, r := UnifyEnvs(a, b), UnifyEnvs(b, a);
    UnifyEnvsIsLub(a, b, a);
    UnifyEnvsIsLub(b, a, b);
    UnifyEnvsIsLub(a, b, r);
    UnifyEnvsIsLub(b, a, l);
    EnvBelowAntisymmetric(l, r);
  }

  lemma UnifyEnvsAssociative(a: Env, b: Env, c: Env)
    requires NormalEnv(a) && NormalEnv(b) && NormalEnv(c)
    ensures UnifyEnvs(UnifyEnvs(a, b), c) == UnifyEnvs(a, UnifyEnvs(b, c))
  {
    var ab, bc := UnifyEnvs(a, b), UnifyEnvs(b, c);
    UnifyEnvsIsLub(a, b, a);
    UnifyEnvsIsLub(b, c, b);
    UnifyEnvsIsLub(ab, c, a);
    UnifyEnvsIsLub(a, bc, a);
    var l, r := UnifyEnvs(ab, c), UnifyEnvs(a, bc);
    UnifyEnvsIsLub(b, c, r);
    UnifyEnvsIsLub(a, b, r);
    UnifyEnvsIsLub(ab, c, r);
    UnifyEnvsIsLub(a, b, l);
    UnifyEnvsIsLub(b, c, l);
    UnifyEnvsIsLub(a, bc, l);
    EnvBelowReflexive(l);
    EnvBelowReflexive(r);
    EnvBelowAntisymmetric(l, r);
  }

  lemma UnifyEnvsIdempotent(a: Env)
    requires NormalEnv(a)
    ensures UnifyEnvs(a, a) == a
  {
    UnifyEnvsIsLub(a, a, a);
    EnvBelowReflexive(a);
    EnvBelowAntisymmetric(UnifyEnvs(a, a), a);
  }

  lemma UnifyEnvsEmpty(a: Env)
    ensures UnifyEnvs(map[], a) == a && UnifyEnvs(a, map[]) == a
  {
  }
}
