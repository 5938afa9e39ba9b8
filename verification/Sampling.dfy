/**
 Inferring object types from sampled documents. A sampled document inhabits the inferred types exactly
 if its undefined values meet types that admit them, and the result does not depend on the order or
 repetition of the documents.
 */
module Sampling {
  import opened Options
  import opened BsonScalars
  import opened ScalarValues
  import opened SchemaTypes
  import opened TypeUnification
  import opened Aligning
  import opened ObjectTypes

  // ----- sampled values -----

  datatype Bson =
    | Leaf(value: BsonLeaf)
    | Array(elements: seq<Bson>)
    | Document(fields: seq<Field>)

  datatype Field = Field(name: string, value: Bson)

  // ----- inference -----

  function TypeOf(name: string, value: Bson): Type {
    match value
    case Leaf(leaf) => Scalar(ScalarOf(leaf))
    case Array(elements) => ArrayOf(ElementType(name, elements))
    case Document(_) => Object(name)
  }

  /** The union of the element types. */
  function ElementType(name: string, elements: seq<Bson>): Type {
    if elements == [] then Scalar(Undefined)
    else Unify(ElementType(name, elements[..|elements| - 1]), TypeOf(name, elements[|elements| - 1]))
  }

  /** The object types that a value at this type name gives rise to. */
  function EnvOf(name: string, value: Bson, allNullable: bool): Env
    decreases value, 0
  {
    match value
    case Leaf(_) => map[]
    case Array(elements) => ElementsEnv(name, elements, allNullable)
    case Document(fields) => DocumentEnv(name, fields, false, allNullable)
  }

  function ElementsEnv(name: string, elements: seq<Bson>, allNullable: bool): Env
    decreases elements, 1
  {
    if elements == [] then map[]
    else
      UnifyEnvs(ElementsEnv(name, elements[..|elements| - 1], allNullable),
                EnvOf(name, elements[|elements| - 1], allNullable))
  }

  function DocumentEnv(name: string, fields: seq<Field>, isCollection: bool, allNullable: bool): Env
    decreases fields, 2
  {
    FieldsEnv(name, fields, allNullable)[name := FieldTypes(name, fields, isCollection, allNullable)]
  }

  /** Object types of all fields; of two with the same name the later one stays. */
  function FieldsEnv(name: string, fields: seq<Field>, allNullable: bool): Env
    decreases fields, 1
  {
    if fields == [] then map[]
    else
      FieldsEnv(name, fields[..|fields| - 1], allNullable)
      + EnvOf(name + "_" + fields[|fields| - 1].name, fields[|fields| - 1].value, allNullable)
  }

  /** The `_id` of a collection type never becomes nullable. */
  function InferredField(name: string, field: Field, isCollection: bool, allNullable: bool): Type {
    var t := TypeOf(name + "_" + field.name, field.value);
    if allNullable && !(isCollection && field.name == "_id") then MakeNullable(t) else t
  }

  function FieldTypes(name: string, fields: seq<Field>, isCollection: bool, allNullable: bool): ObjectType {
    if fields == [] then map[]
    else
      FieldTypes(name, fields[..|fields| - 1], isCollection, allNullable)
        [fields[|fields| - 1].name := InferredField(name, fields[|fields| - 1], isCollection, allNullable)]
  }

  /** The object types inferred from a collection's documents; none from no documents. */
  function SampledEnv(name: string, docs: seq<seq<Field>>, allNullable: bool): Env {
    if docs == [] then map[]
    else
      UnifyEnvs(SampledEnv(name, docs[..|docs| - 1], allNullable),
                DocumentEnv(name, docs[|docs| - 1], true, allNullable))
  }

  // ----- inference as it is carried out -----

  lemma {:induction false} ToMapAppend(a: seq<(string, ObjectType)>, b: seq<(string, ObjectType)>)
    ensures ToMap(a + b) == ToMap(a) + ToMap(b)
  {
    if b == [] {
      assert a + b == a;
    } else {
      var init := b[..|b| - 1];
      ToMapAppend(a, init);
      assert (a + b)[..|a + b| - 1] == a + init;
    }
  }

  method MakeFieldType(name: string, value: Bson, allNullable: bool)
      returns (defs: seq<(string, ObjectType)>, t: Type)
    ensures ToMap(defs) == EnvOf(name, value, allNullable) && t == TypeOf(name, value)
    decreases value, 0
  {
    match value
    case Leaf(leaf) =>
      defs, t := [], Scalar(ScalarOf(leaf));
    case Array(elements) =>
      defs := [];
      var elementType := Scalar(Undefined);
      for i := 0 to |elements|
        invariant ToMap(defs) == ElementsEnv(name, elements[..i], allNullable)
        invariant elementType == ElementType(name, elements[..i])
      {
        assert elements[..i + 1][..i] == elements[..i];
        var elementDefs, next := MakeFieldType(name, elements[i], allNullable);
        UnifyEnvsEmpty(ToMap(elementDefs));
        if |defs| == 0 {
          defs := elementDefs;
        } else {
          defs := UnifyObjectTypes(defs, elementDefs);
        }
        elementType := Unify(elementType, next);
      }
      assert elements[..|elements|] == elements;
      t := ArrayOf(elementType);
    case Document(fields) =>
      defs := MakeObjectType(name, fields, false, allNullable);
      t := Object(name);
  }

  method MakeObjectType(name: string, fields: seq<Field>, isCollection: bool, allNullable: bool)
      returns (defs: seq<(string, ObjectType)>)
    ensures defs != [] && ToMap(defs) == DocumentEnv(name, fields, isCollection, allNullable)
    decreases fields, 0
  {
    defs := [];
    var objectFields: ObjectType := map[];
    for i := 0 to |fields|
      invariant ToMap(defs) == FieldsEnv(name, fields[..i], allNullable)
      invariant objectFields == FieldTypes(name, fields[..i], isCollection, allNullable)
    {
      assert fields[..i + 1][..i] == fields[..i];
      var Field(fieldName, value) := fields[i];
      var fieldDefs, t := MakeFieldType(name + "_" + fieldName, value, allNullable);
      ToMapAppend(defs, fieldDefs);
      defs := defs + fieldDefs;
      if allNullable && !(isCollection && fieldName == "_id") {
        t := MakeNullable(t);
      }
      objectFields := objectFields[fieldName := t];
    }
    assert fields[..|fields|] == fields;
    assert (defs + [(name, objectFields)])[..|defs|] == defs;
    defs := defs + [(name, objectFields)];
  }

  method SampleSchema(name: string, docs: seq<seq<Field>>, allNullable: bool) returns (schema: Option<Env>)
    ensures schema == if docs == [] then None else Some(SampledEnv(name, docs, allNullable))
  {
    var collected: seq<(string, ObjectType)> := [];
    for i := 0 to |docs|
      invariant ToMap(collected) == SampledEnv(name, docs[..i], allNullable)
      invariant collected == [] <==> i == 0
    {
      assert docs[..i + 1][..i] == docs[..i];
      var types := MakeObjectType(name, docs[i], true, allNullable);
      UnifyEnvsEmpty(ToMap(types));
      if collected == [] {
        collected := types;
      } else {
        assert name in DocumentEnv(name, docs[i], true, allNullable);
        collected := UnifyObjectTypes(collected, types);
      }
    }
    assert docs[..|docs|] == docs;
    schema := if collected == [] then None else Some(ToMap(collected));
  }

  // ----- inhabitants of types -----

  predicate IsNull(value: Bson) {
    value == Leaf(NullValue)
  }

  predicate HasType(env: Env, value: Bson, t: Type)
    decreases value, t
  {
    match t
    case ExtendedJSON => true
    case Nullable(inner) => IsNull(value) || HasType(env, value, inner)
    case Scalar(s) => value.Leaf? && Inhabits(value.value, s)
    case ArrayOf(element) =>
      value.Array? && forall i :: 0 <= i < |value.elements| ==> HasType(env, value.elements[i], element)
    case Object(name) =>
      && value.Document? && name in env
      && (forall i :: 0 <= i < |value.fields| ==>
            value.fields[i].name in env[name] && HasType(env, value.fields[i].value, env[name][value.fields[i].name]))
      && (forall f :: f in env[name] ==> Present(value.fields, f) || AdmitsNull(env[name][f]))
    case Predicate(_) => false
  }

  /** The value would have the type if undefined values were of every type. */
  predicate Shaped(env: Env, value: Bson, t: Type)
    decreases value, t
  {
    value == Leaf(UndefinedValue) ||
    match t
    case ExtendedJSON => true
    case Nullable(inner) => IsNull(value) || Shaped(env, value, inner)
    case Scalar(s) => value.Leaf? && Inhabits(value.value, s)
    case ArrayOf(element) =>
      value.Array? && forall i :: 0 <= i < |value.elements| ==> Shaped(env, value.elements[i], element)
    case Object(name) =>
      && value.Document? && name in env
      && (forall i :: 0 <= i < |value.fields| ==>
            value.fields[i].name in env[name] && Shaped(env, value.fields[i].value, env[name][value.fields[i].name]))
      && (forall f :: f in env[name] ==> Present(value.fields, f) || AdmitsNull(env[name][f]))
    case Predicate(_) => false
  }

  /** The type of a value that may be undefined. */
  predicate AdmitsUndefined(t: Type) {
    t.ExtendedJSON? || t == Scalar(Undefined) || (t.Nullable? && AdmitsUndefined(t.inner))
  }

  /** Every undefined value in the value meets a type that admits it. */
  predicate UndefinedAdmitted(env: Env, value: Bson, t: Type)
    decreases value, t
  {
    match value
    case Leaf(leaf) => leaf != UndefinedValue || AdmitsUndefined(t)
    case Array(elements) =>
      if t.Nullable? then UndefinedAdmitted(env, value, t.inner)
      else t.ArrayOf? ==> forall i :: 0 <= i < |elements| ==> UndefinedAdmitted(env, elements[i], t.element)
    case Document(fields) =>
      if t.Nullable? then UndefinedAdmitted(env, value, t.inner)
      else t.Object? && t.name in env ==>
        forall i :: 0 <= i < |fields| && fields[i].name in env[t.name] ==>
          UndefinedAdmitted(env, fields[i].value, env[t.name][fields[i].name])
  }

  predicate Present(fields: seq<Field>, f: string) {
    exists i :: 0 <= i < |fields| && fields[i].name == f
  }

  predicate UniqueKeys(fields: seq<Field>) {
    forall i, j :: 0 <= i < j < |fields| ==> fields[i].name != fields[j].name
  }

  /** Documents have distinct keys, and no value is the deprecated BSON undefined. */
  predicate Proper(value: Bson) {
    match value
    case Leaf(leaf) => leaf != UndefinedValue
    case Array(elements) => forall i :: 0 <= i < |elements| ==> Proper(elements[i])
    case Document(fields) =>
      UniqueKeys(fields) && forall i :: 0 <= i < |fields| ==> Proper(fields[i].value)
  }

  /** All documents in the value have distinct keys. */
  predicate Keyed(value: Bson) {
    match value
    case Leaf(_) => true
    case Array(elements) => forall i :: 0 <= i < |elements| ==> Keyed(elements[i])
    case Document(fields) =>
      UniqueKeys(fields) && forall i :: 0 <= i < |fields| ==> Keyed(fields[i].value)
  }

  /** The names of the object types a value gives rise to. */
  function NamesOf(name: string, value: Bson): set<string>
    decreases value, 0
  {
    match value
    case Leaf(_) => {}
    case Array(elements) => ElementNames(name, elements)
    case Document(fields) => {name} + FieldNames(name, fields)
  }

  function ElementNames(name: string, elements: seq<Bson>): set<string>
    decreases elements, 1
  {
    if elements == [] then {}
    else ElementNames(name, elements[..|elements| - 1]) + NamesOf(name, elements[|elements| - 1])
  }

  function FieldNames(name: string, fields: seq<Field>): set<string>
    decreases fields, 1
  {
    if fields == [] then {}
    else
      FieldNames(name, fields[..|fields| - 1])
      + NamesOf(name + "_" + fields[|fields| - 1].name, fields[|fields| - 1].value)
  }

  /** The generated type names of different fields of a document do not collide. */
  predicate NoClash(name: string, value: Bson)
    decreases value
  {
    match value
    case Leaf(_) => true
    case Array(elements) => forall i :: 0 <= i < |elements| ==> NoClash(name, elements[i])
    case Document(fields) =>
      && (forall i :: 0 <= i < |fields| ==> NoClash(name + "_" + fields[i].name, fields[i].value))
      && (forall i, j :: 0 <= i < j < |fields| ==>
            NamesOf(name + "_" + fields[i].name, fields[i].value)
            !! NamesOf(name + "_" + fields[j].name, fields[j].value))
  }

  // ----- normality and names of inferred types -----

  lemma {:induction false} TypeOfNormal(name: string, value: Bson)
    ensures Normal(TypeOf(name, value))
  {
    if value.Array? {
      ElementTypeNormal(name, value.elements);
    }
  }

  lemma ElementTypeNormal(name: string, elements: seq<Bson>)
    ensures Normal(ElementType(name, elements))
  {
    if elements != [] {
      UnifyNormal(ElementType(name, elements[..|elements| - 1]), TypeOf(name, elements[|elements| - 1]));
    }
  }

  lemma {:induction false} EnvOfNormal(name: string, value: Bson, allNullable: bool)
    ensures NormalEnv(EnvOf(name, value, allNullable))
    decreases value, 0
  {
    match value
    case Leaf(_) =>
    case Array(elements) => ElementsEnvNormal(name, elements, allNullable);
    case Document(fields) => DocumentEnvNormal(name, fields, false, allNullable);
  }

  lemma {:induction false} ElementsEnvNormal(name: string, elements: seq<Bson>, allNullable: bool)
    ensures NormalEnv(ElementsEnv(name, elements, allNullable))
    decreases elements, 1
  {
    if elements != [] {
      var init, last := elements[..|elements| - 1], elements[|elements| - 1];
      ElementsEnvNormal(name, init, allNullable);
      EnvOfNormal(name, last, allNullable);
      var a, b := ElementsEnv(name, init, allNullable), EnvOf(name, last, allNullable);
      UnifyEnvsIsLub(a, b, a);
    }
  }

  lemma {:induction false} DocumentEnvNormal(name: string, fields: seq<Field>, isCollection: bool, allNullable: bool)
    ensures NormalEnv(DocumentEnv(name, fields, isCollection, allNullable))
    decreases fields, 2
  {
    FieldsEnvNormal(name, fields, allNullable);
    FieldTypesNormal(name, fields, isCollection, allNullable);
  }

  lemma {:induction false} FieldsEnvNormal(name: string, fields: seq<Field>, allNullable: bool)
    ensures NormalEnv(FieldsEnv(name, fields, allNullable))
    decreases fields, 1
  {
    if fields != [] {
      FieldsEnvNormal(name, fields[..|fields| - 1], allNullable);
      EnvOfNormal(name + "_" + fields[|fields| - 1].name, fields[|fields| - 1].value, allNullable);
    }
  }

  lemma {:induction false} FieldTypesNormal(name: string, fields: seq<Field>, isCollection: bool, allNullable: bool)
    ensures NormalObject(FieldTypes(name, fields, isCollection, allNullable))
  {
    if fields != [] {
      FieldTypesNormal(name, fields[..|fields| - 1], isCollection, allNullable);
      var t := TypeOf(name + "_" + fields[|fields| - 1].name, fields[|fields| - 1].value);
      TypeOfNormal(name + "_" + fields[|fields| - 1].name, fields[|fields| - 1].value);
      MakeNullableNormal(t);
    }
  }

  lemma {:induction false} SampledEnvNormal(name: string, docs: seq<seq<Field>>, allNullable: bool)
    ensures NormalEnv(SampledEnv(name, docs, allNullable))
  {
    if docs != [] {
      var init, last := docs[..|docs| - 1], docs[|docs| - 1];
      SampledEnvNormal(name, init, allNullable);
      DocumentEnvNormal(name, last, true, allNullable);
      var a, b := SampledEnv(name, init, allNullable), DocumentEnv(name, last, true, allNullable);
      UnifyEnvsIsLub(a, b, a);
    }
  }

  // ----- order independence -----

  /** The sampled types are the least that are above the types of every document. */
  lemma {:induction false} SampledEnvIsLub(name: string, docs: seq<seq<Field>>, allNullable: bool, upper: Env)
    requires NormalEnv(upper)
    ensures EnvBelow(SampledEnv(name, docs, allNullable), upper)
       <==> forall i :: 0 <= i < |docs| ==> EnvBelow(DocumentEnv(name, docs[i], true, allNullable), upper)
  {
    if docs != [] {
      var init, last := docs[..|docs| - 1], docs[|docs| - 1];
      SampledEnvIsLub(name, init, allNullable, upper);
      SampledEnvNormal(name, init, allNullable);
      DocumentEnvNormal(name, last, true, allNullable);
      UnifyEnvsIsLub(SampledEnv(name, init, allNullable), DocumentEnv(name, last, true, allNullable), upper);
      assert forall i :: 0 <= i < |init| ==> init[i] == docs[i];
      assert forall i :: 0 <= i < |docs| ==> i < |init| || docs[i] == last;
    }
  }

  lemma SampledAbove(name: string, docs: seq<seq<Field>>, allNullable: bool, i: nat)
    requires i < |docs|
    ensures EnvBelow(DocumentEnv(name, docs[i], true, allNullable), SampledEnv(name, docs, allNullable))
  {
    var sampled := SampledEnv(name, docs, allNullable);
    SampledEnvNormal(name, docs, allNullable);
    EnvBelowReflexive(sampled);
    SampledEnvIsLub(name, docs, allNullable, sampled);
  }

  lemma SampledFewer(name: string, docs: seq<seq<Field>>, more: seq<seq<Field>>, allNullable: bool)
    requires forall d :: d in docs ==> d in more
    ensures EnvBelow(SampledEnv(name, docs, allNullable), SampledEnv(name, more, allNullable))
  {
    forall i | 0 <= i < |docs|
      ensures EnvBelow(DocumentEnv(name, docs[i], true, allNullable), SampledEnv(name, more, allNullable))
    {
      assert docs[i] in more;
      var k :| 0 <= k < |more| && more[k] == docs[i];
      SampledAbove(name, more, allNullable, k);
    }
    SampledEnvNormal(name, more, allNullable);
    SampledEnvIsLub(name, docs, allNullable, SampledEnv(name, more, allNullable));
  }

  /** Samples with the same documents, in whatever order and number, give the same schema. */
  lemma SamplingOrderIndependent(name: string, docs: seq<seq<Field>>, docs': seq<seq<Field>>, allNullable: bool)
    requires forall d :: d in docs <==> d in docs'
    ensures SampledEnv(name, docs, allNullable) == SampledEnv(name, docs', allNullable)
  {
    SampledFewer(name, docs, docs', allNullable);
    SampledFewer(name, docs', docs, allNullable);
    SampledEnvNormal(name, docs, allNullable);
    SampledEnvNormal(name, docs', allNullable);
    EnvBelowAntisymmetric(SampledEnv(name, docs, allNullable), SampledEnv(name, docs', allNullable));
  }

  // ----- names of inferred object types -----

  lemma {:induction false} EnvNames(name: string, value: Bson, allNullable: bool)
    ensures EnvOf(name, value, allNullable).Keys == NamesOf(name, value)
    decreases value, 0
  {
    match value
    case Leaf(_) =>
    case Array(elements) => ElementsEnvNames(name, elements, allNullable);
    case Document(fields) => FieldsEnvNames(name, fields, allNullable);
  }

  lemma {:induction false} ElementsEnvNames(name: string, elements: seq<Bson>, allNullable: bool)
    ensures ElementsEnv(name, elements, allNullable).Keys == ElementNames(name, elements)
    decreases elements, 1
  {
    if elements != [] {
      ElementsEnvNames(name, elements[..|elements| - 1], allNullable);
      EnvNames(name, elements[|elements| - 1], allNullable);
    }
  }

  lemma {:induction false} FieldsEnvNames(name: string, fields: seq<Field>, allNullable: bool)
    ensures FieldsEnv(name, fields, allNullable).Keys == FieldNames(name, fields)
    decreases fields, 1
  {
    if fields != [] {
      FieldsEnvNames(name, fields[..|fields| - 1], allNullable);
      EnvNames(name + "_" + fields[|fields| - 1].name, fields[|fields| - 1].value, allNullable);
    }
  }

  /** Generated names extend the name they are generated at, by nothing or by an underscore. */
  predicate Extends(k: string, name: string) {
    k == name || name + "_" <= k
  }

  lemma {:induction false} NamesExtend(name: string, value: Bson)
    ensures forall k :: k in NamesOf(name, value) ==> Extends(k, name)
    decreases value, 0
  {
    match value
    case Leaf(_) =>
    case Array(elements) => ElementNamesExtend(name, elements);
    case Document(fields) => FieldNamesExtend(name, fields);
  }

  lemma {:induction false} ElementNamesExtend(name: string, elements: seq<Bson>)
    ensures forall k :: k in ElementNames(name, elements) ==> Extends(k, name)
    decreases elements, 1
  {
    if elements != [] {
      ElementNamesExtend(name, elements[..|elements| - 1]);
      NamesExtend(name, elements[|elements| - 1]);
    }
  }

  lemma {:induction false} FieldNamesExtend(name: string, fields: seq<Field>)
    ensures forall k :: k in FieldNames(name, fields) ==> name + "_" <= k
    decreases fields, 1
  {
    if fields != [] {
      FieldNamesExtend(name, fields[..|fields| - 1]);
      var fieldName := name + "_" + fields[|fields| - 1].name;
      NamesExtend(fieldName, fields[|fields| - 1].value);
      forall k | Extends(k, fieldName) ensures name + "_" <= k {
        assert name + "_" <= fieldName <= k;
      }
    }
  }

  /** Only the value's own document, not a field of it, has the value's own name. */
  lemma OwnNameFresh(name: string, fields: seq<Field>)
    ensures name !in FieldNames(name, fields)
  {
    FieldNamesExtend(name, fields);
    assert !(name + "_" <= name);
  }

  /** Fields that hold documents have no underscore in their names. */
  predicate NoUnderscores(value: Bson) {
    match value
    case Leaf(_) => true
    case Array(elements) => forall i :: 0 <= i < |elements| ==> NoUnderscores(elements[i])
    case Document(fields) => forall i :: 0 <= i < |fields| ==>
      && NoUnderscores(fields[i].value)
      && (HoldsDocument(fields[i].value) ==> '_' !in fields[i].name)
  }

  predicate HoldsDocument(value: Bson) {
    match value
    case Leaf(_) => false
    case Array(elements) => exists i :: 0 <= i < |elements| && HoldsDocument(elements[i])
    case Document(_) => true
  }

  lemma {:induction false} NamesNeedDocument(name: string, value: Bson)
    ensures NamesOf(name, value) != {} ==> HoldsDocument(value)
    decreases value, 0
  {
    if value.Array? {
      ElementNamesNeedDocument(name, value.elements);
    }
  }

  lemma {:induction false} ElementNamesNeedDocument(name: string, elements: seq<Bson>)
    ensures ElementNames(name, elements) != {} ==> exists i :: 0 <= i < |elements| && HoldsDocument(elements[i])
    decreases elements, 1
  {
    if elements != [] {
      var init := elements[..|elements| - 1];
      ElementNamesNeedDocument(name, init);
      NamesNeedDocument(name, elements[|elements| - 1]);
      if exists i :: 0 <= i < |init| && HoldsDocument(init[i]) {
        var i :| 0 <= i < |init| && HoldsDocument(init[i]);
        assert elements[i] == init[i];
      }
    }
  }

  /** The text up to the first underscore. */
  function Segment(s: string): string {
    if s == "" || s[0] == '_' then "" else [s[0]] + Segment(s[1..])
  }

  lemma {:induction false} SegmentOf(f: string, rest: string)
    requires '_' !in f && (rest == "" || rest[0] == '_')
    ensures Segment(f + rest) == f
  {
    if f == "" {
      assert f + rest == rest;
    } else {
      SegmentOf(f[1..], rest);
      assert (f + rest)[1..] == f[1..] + rest;
      assert f == [f[0]] + f[1..];
    }
  }

  lemma ExtensionSegment(prefix: string, f: string, k: string)
    requires '_' !in f && Extends(k, prefix + f)
    ensures |prefix| <= |k| && Segment(k[|prefix|..]) == f
  {
    var rest := k[|prefix + f|..];
    assert k == prefix + f + rest;
    assert k[|prefix|..] == f + rest;
    assert rest == "" || rest[0] == '_' by {
      if k != prefix + f { assert k[|prefix + f|] == (prefix + f + "_")[|prefix + f|]; }
    }
    SegmentOf(f, rest);
  }

  /** A condition on field names alone that rules out clashes. */
  lemma {:induction false} NoUnderscoresNoClash(name: string, value: Bson)
    requires Proper(value) && NoUnderscores(value)
    ensures NoClash(name, value)
    decreases value
  {
    match value
    case Leaf(_) =>
    case Array(elements) =>
      forall i | 0 <= i < |elements| ensures NoClash(name, elements[i]) {
        NoUnderscoresNoClash(name, elements[i]);
      }
    case Document(fields) =>
      forall i | 0 <= i < |fields| ensures NoClash(name + "_" + fields[i].name, fields[i].value) {
        NoUnderscoresNoClash(name + "_" + fields[i].name, fields[i].value);
      }
      forall i, j | 0 <= i < j < |fields|
        ensures NamesOf(name + "_" + fields[i].name, fields[i].value)
             !! NamesOf(name + "_" + fields[j].name, fields[j].value)
      {
        FieldsDisjoint(name, fields[i], fields[j]);
      }
  }

  lemma FieldsDisjoint(name: string, f: Field, g: Field)
    requires f.name != g.name
    requires HoldsDocument(f.value) ==> '_' !in f.name
    requires HoldsDocument(g.value) ==> '_' !in g.name
    ensures NamesOf(name + "_" + f.name, f.value) !! NamesOf(name + "_" + g.name, g.value)
  {
    var a, b := NamesOf(name + "_" + f.name, f.value), NamesOf(name + "_" + g.name, g.value);
    NamesNeedDocument(name + "_" + f.name, f.value);
    NamesNeedDocument(name + "_" + g.name, g.value);
    NamesExtend(name + "_" + f.name, f.value);
    NamesExtend(name + "_" + g.name, g.value);
    if HoldsDocument(f.value) && HoldsDocument(g.value) {
      var prefix := name + "_";
      forall k | k in a ensures k !in b {
        ExtensionSegment(prefix, f.name, k);
        if Extends(k, prefix + g.name) { ExtensionSegment(prefix, g.name, k); }
      }
    }
  }

  // ----- soundness -----

  lemma {:induction false} AdmitsNullMonotone(a: Type, b: Type)
    requires Normal(a) && Normal(b) && Below(a, b) && AdmitsNull(a)
    ensures AdmitsNull(b)
  {
  }

  /** What keeps a shaped value from its type is an undefined value where the type does not admit it. */
  lemma {:induction false} ShapedExact(env: Env, value: Bson, t: Type)
    requires Shaped(env, value, t)
    ensures HasType(env, value, t) <==> UndefinedAdmitted(env, value, t)
    decreases value, t
  {
    match t
    case Nullable(inner) => if !IsNull(value) { ShapedExact(env, value, inner); }
    case ArrayOf(element) =>
      if value.Array? {
        forall i | 0 <= i < |value.elements|
          ensures HasType(env, value.elements[i], element) <==> UndefinedAdmitted(env, value.elements[i], element)
        {
          ShapedExact(env, value.elements[i], element);
        }
      }
    case Object(name) =>
      if value.Document? {
        forall i | 0 <= i < |value.fields|
          ensures var f, v := value.fields[i].name, value.fields[i].value;
            HasType(env, v, env[name][f]) <==> UndefinedAdmitted(env, v, env[name][f])
        {
          ShapedExact(env, value.fields[i].value, env[name][value.fields[i].name]);
        }
      }
    case _ =>
  }

  lemma {:induction false} TypedShaped(env: Env, value: Bson, t: Type)
    requires HasType(env, value, t)
    ensures Shaped(env, value, t)
    decreases value, t
  {
    match t
    case Nullable(inner) => if !IsNull(value) { TypedShaped(env, value, inner); }
    case ArrayOf(element) =>
      forall i | 0 <= i < |value.elements| ensures Shaped(env, value.elements[i], element) {
        TypedShaped(env, value.elements[i], element);
      }
    case Object(name) =>
      forall i | 0 <= i < |value.fields|
        ensures Shaped(env, value.fields[i].value, env[name][value.fields[i].name])
      {
        TypedShaped(env, value.fields[i].value, env[name][value.fields[i].name]);
      }
    case _ =>
  }

  lemma {:induction false} ProperAdmitted(env: Env, value: Bson, t: Type)
    requires Proper(value)
    ensures UndefinedAdmitted(env, value, t) && Keyed(value)
    decreases value, t
  {
    match value
    case Leaf(_) =>
    case Array(elements) =>
      if t.Nullable? { ProperAdmitted(env, value, t.inner); }
      forall i | 0 <= i < |elements| ensures Keyed(elements[i]) {
        ProperAdmitted(env, elements[i], t);
      }
      if t.ArrayOf? {
        forall i | 0 <= i < |elements| ensures UndefinedAdmitted(env, elements[i], t.element) {
          ProperAdmitted(env, elements[i], t.element);
        }
      }
    case Document(fields) =>
      if t.Nullable? { ProperAdmitted(env, value, t.inner); }
      forall i | 0 <= i < |fields| ensures Keyed(fields[i].value) {
        ProperAdmitted(env, fields[i].value, t);
      }
      if t.Object? && t.name in env {
        forall i | 0 <= i < |fields| && fields[i].name in env[t.name]
          ensures UndefinedAdmitted(env, fields[i].value, env[t.name][fields[i].name])
        {
          ProperAdmitted(env, fields[i].value, env[t.name][fields[i].name]);
        }
      }
  }

  /** Larger types in larger environments have more inhabitants, if undefined values are of every type. */
  lemma {:induction false} ShapedMonotone(env: Env, env': Env, value: Bson, t: Type, t': Type)
    requires NormalEnv(env) && NormalEnv(env') && Normal(t) && Normal(t')
    requires EnvBelow(env, env') && Below(t, t')
    requires Shaped(env, value, t)
    ensures Shaped(env', value, t')
    decreases value, t'
  {
    if value != Leaf(UndefinedValue) {
      match t'
      case ExtendedJSON =>
      case Nullable(inner) =>
        if !IsNull(value) {
          ShapedMonotone(env, env', value, if t.Nullable? then t.inner else t, inner);
        }
      case Scalar(_) =>
      case ArrayOf(element) =>
        forall i | 0 <= i < |value.elements| ensures Shaped(env', value.elements[i], element) {
          ShapedMonotone(env, env', value.elements[i], t.element, element);
        }
      case Object(name) => ObjectMonotone(env, env', value, name);
      case Predicate(_) =>
    }
  }

  lemma {:induction false} ObjectMonotone(env: Env, env': Env, value: Bson, name: string)
    requires NormalEnv(env) && NormalEnv(env') && value.Document?
    requires EnvBelow(env, env') && Shaped(env, value, Object(name))
    ensures Shaped(env', value, Object(name))
    decreases value, Object(name), 0
  {
    var o, o' := env[name], env'[name];
    assert ObjectBelow(o, o');
    forall i | 0 <= i < |value.fields|
      ensures value.fields[i].name in o' && Shaped(env', value.fields[i].value, o'[value.fields[i].name])
    {
      var f := value.fields[i].name;
      assert Below(FieldType(o, f), o'[f]);
      ShapedMonotone(env, env', value.fields[i].value, o[f], o'[f]);
    }
    forall f | f in o' && !Present(value.fields, f) ensures AdmitsNull(o'[f]) {
      AdmitsNullMonotone(FieldType(o, f), o'[f]);
    }
  }

  /** Larger types in larger environments have more inhabitants. */
  lemma HasTypeMonotone(env: Env, env': Env, value: Bson, t: Type, t': Type)
    requires NormalEnv(env) && NormalEnv(env') && Normal(t) && Normal(t') && Proper(value)
    requires EnvBelow(env, env') && Below(t, t')
    requires HasType(env, value, t)
    ensures HasType(env', value, t')
  {
    TypedShaped(env, value, t);
    ShapedMonotone(env, env', value, t, t');
    ProperAdmitted(env', value, t');
    ShapedExact(env', value, t');
  }

  lemma UnifiedAbove(env: Env, a: Env, b: Env)
    requires NormalEnv(env) && NormalEnv(a) && NormalEnv(b) && EnvBelow(env, a)
    ensures EnvBelow(env, UnifyEnvs(a, b))
  {
    UnifyEnvsIsLub(a, b, a);
    EnvBelowTransitive(env, a, UnifyEnvs(a, b));
  }

  lemma {:induction false} ElementEnvAbove(name: string, elements: seq<Bson>, allNullable: bool, i: nat)
    requires i < |elements|
    ensures EnvBelow(EnvOf(name, elements[i], allNullable), ElementsEnv(name, elements, allNullable))
  {
    var init, last := elements[..|elements| - 1], elements[|elements| - 1];
    var a, b := ElementsEnv(name, init, allNullable), EnvOf(name, last, allNullable);
    ElementsEnvNormal(name, init, allNullable);
    EnvOfNormal(name, last, allNullable);
    if i < |init| {
      EnvOfNormal(name, elements[i], allNullable);
      ElementEnvAbove(name, init, allNullable, i);
      UnifiedAbove(EnvOf(name, elements[i], allNullable), a, b);
    } else {
      UnifyEnvsIsLub(a, b, a);
    }
  }

  lemma {:induction false} ElementTypeAbove(name: string, elements: seq<Bson>, i: nat)
    requires i < |elements|
    ensures Below(TypeOf(name, elements[i]), ElementType(name, elements))
  {
    var init, last := elements[..|elements| - 1], elements[|elements| - 1];
    var x, y := ElementType(name, init), TypeOf(name, last);
    ElementTypeNormal(name, init);
    TypeOfNormal(name, last);
    UnifyNormalIsLub(x, y, x);
    if i < |init| {
      TypeOfNormal(name, elements[i]);
      ElementTypeAbove(name, init, i);
      BelowTransitive(TypeOf(name, elements[i]), x, Unify(x, y));
    }
  }

  /** The field types of a document with distinct keys are those of its fields. */
  lemma {:induction false} FieldTypesExact(name: string, fields: seq<Field>, isCollection: bool, allNullable: bool,
                                           i: nat)
    requires UniqueKeys(fields) && i < |fields|
    ensures var o := FieldTypes(name, fields, isCollection, allNullable);
      fields[i].name in o && o[fields[i].name] == InferredField(name, fields[i], isCollection, allNullable)
  {
    if i < |fields| - 1 {
      FieldTypesExact(name, fields[..|fields| - 1], isCollection, allNullable, i);
    }
  }

  lemma {:induction false} FieldTypesPresent(name: string, fields: seq<Field>, isCollection: bool, allNullable: bool,
                                             f: string)
    requires f in FieldTypes(name, fields, isCollection, allNullable)
    ensures Present(fields, f)
  {
    if fields[|fields| - 1].name != f {
      var init := fields[..|fields| - 1];
      FieldTypesPresent(name, init, isCollection, allNullable, f);
      var i :| 0 <= i < |init| && init[i].name == f;
      assert fields[i].name == f;
    }
  }

  /** Without clashes no field's object types are lost. */
  lemma {:induction false} FieldsEnvKeeps(name: string, fields: seq<Field>, allNullable: bool, i: nat)
    requires i < |fields|
    requires forall a, b :: 0 <= a < b < |fields| ==>
      NamesOf(name + "_" + fields[a].name, fields[a].value) !! NamesOf(name + "_" + fields[b].name, fields[b].value)
    ensures var own := EnvOf(name + "_" + fields[i].name, fields[i].value, allNullable);
      var all := FieldsEnv(name, fields, allNullable);
      forall n :: n in own ==> n in all && all[n] == own[n]
  {
    var last := fields[|fields| - 1];
    if i < |fields| - 1 {
      FieldsEnvKeeps(name, fields[..|fields| - 1], allNullable, i);
      EnvNames(name + "_" + fields[i].name, fields[i].value, allNullable);
      EnvNames(name + "_" + last.name, last.value, allNullable);
    }
  }

  /** A value is shaped as the type inferred from it says, in the environment inferred from it. */
  lemma {:induction false} ShapedOwnType(name: string, value: Bson, allNullable: bool)
    requires Keyed(value) && NoClash(name, value)
    ensures Shaped(EnvOf(name, value, allNullable), value, TypeOf(name, value))
    decreases value, 0
  {
    match value
    case Leaf(_) =>
    case Array(elements) =>
      var env, t := ElementsEnv(name, elements, allNullable), ElementType(name, elements);
      forall i | 0 <= i < |elements| ensures Shaped(env, elements[i], t) {
        ShapedOwnType(name, elements[i], allNullable);
        ElementEnvAbove(name, elements, allNullable, i);
        ElementTypeAbove(name, elements, i);
        EnvOfNormal(name, elements[i], allNullable);
        ElementsEnvNormal(name, elements, allNullable);
        TypeOfNormal(name, elements[i]);
        ElementTypeNormal(name, elements);
        ShapedMonotone(EnvOf(name, elements[i], allNullable), env, elements[i], TypeOf(name, elements[i]), t);
      }
    case Document(fields) => DocumentShaped(name, fields, false, allNullable);
  }

  lemma {:induction false} DocumentShaped(name: string, fields: seq<Field>, isCollection: bool, allNullable: bool)
    requires Keyed(Document(fields)) && NoClash(name, Document(fields))
    ensures Shaped(DocumentEnv(name, fields, isCollection, allNullable), Document(fields), Object(name))
    decreases fields, 1
  {
    var env := DocumentEnv(name, fields, isCollection, allNullable);
    forall f | f in FieldTypes(name, fields, isCollection, allNullable) ensures Present(fields, f) {
      FieldTypesPresent(name, fields, isCollection, allNullable, f);
    }
    forall i | 0 <= i < |fields|
      ensures Shaped(env, fields[i].value, InferredField(name, fields[i], isCollection, allNullable))
    {
      ShapedOwnType(name + "_" + fields[i].name, fields[i].value, allNullable);
      FieldShaped(name, fields, isCollection, allNullable, i);
    }
    forall i | 0 <= i < |fields|
      ensures fields[i].name in env[name] && Shaped(env, fields[i].value, env[name][fields[i].name])
    {
      FieldTypesExact(name, fields, isCollection, allNullable, i);
    }
  }

  lemma FieldShaped(name: string, fields: seq<Field>, isCollection: bool, allNullable: bool, i: nat)
    requires Keyed(Document(fields)) && NoClash(name, Document(fields)) && i < |fields|
    requires var fieldName := name + "_" + fields[i].name;
      Shaped(EnvOf(fieldName, fields[i].value, allNullable), fields[i].value, TypeOf(fieldName, fields[i].value))
    ensures Shaped(DocumentEnv(name, fields, isCollection, allNullable), fields[i].value,
                    InferredField(name, fields[i], isCollection, allNullable))
  {
    var fieldName, value := name + "_" + fields[i].name, fields[i].value;
    var own, env := EnvOf(fieldName, value, allNullable), DocumentEnv(name, fields, isCollection, allNullable);
    var t, t' := TypeOf(fieldName, value), InferredField(name, fields[i], isCollection, allNullable);
    EnvOfNormal(fieldName, value, allNullable);
    DocumentEnvNormal(name, fields, isCollection, allNullable);
    TypeOfNormal(fieldName, value);
    MakeNullableNormal(t);
    MakeNullableLeast(t, t);
    BelowReflexive(t);
    FieldsEnvKeeps(name, fields, allNullable, i);
    FieldsEnvNames(name, fields, allNullable);
    OwnNameFresh(name, fields);
    forall n | n in own ensures n in env && ObjectBelow(own[n], env[n]) {
      ObjectBelowReflexive(own[n]);
    }
    ShapedMonotone(own, env, value, t, t');
  }

  lemma SamplingShaped(name: string, docs: seq<seq<Field>>, allNullable: bool, i: nat)
    requires i < |docs|
    requires Keyed(Document(docs[i])) && NoClash(name, Document(docs[i]))
    ensures Shaped(SampledEnv(name, docs, allNullable), Document(docs[i]), Object(name))
  {
    DocumentShaped(name, docs[i], true, allNullable);
    SampledAbove(name, docs, allNullable, i);
    DocumentEnvNormal(name, docs[i], true, allNullable);
    SampledEnvNormal(name, docs, allNullable);
    BelowReflexive(Object(name));
    ShapedMonotone(DocumentEnv(name, docs[i], true, allNullable), SampledEnv(name, docs, allNullable),
                   Document(docs[i]), Object(name), Object(name));
  }

  /**
   A sampled document inhabits the inferred collection type in the inferred environment, exactly if
   every undefined value in it meets a type that admits undefined values.
   */
  lemma SamplingExact(name: string, docs: seq<seq<Field>>, allNullable: bool, i: nat)
    requires i < |docs|
    requires Keyed(Document(docs[i])) && NoClash(name, Document(docs[i]))
    ensures var env := SampledEnv(name, docs, allNullable);
      HasType(env, Document(docs[i]), Object(name)) <==> UndefinedAdmitted(env, Document(docs[i]), Object(name))
  {
    SamplingShaped(name, docs, allNullable, i);
    ShapedExact(SampledEnv(name, docs, allNullable), Document(docs[i]), Object(name));
  }

  /**
   Inference is sound: every sampled document without undefined values inhabits the inferred
   collection type in the inferred environment.
   */
  lemma SamplingSound(name: string, docs: seq<seq<Field>>, allNullable: bool, i: nat)
    requires i < |docs|
    requires Proper(Document(docs[i])) && NoClash(name, Document(docs[i]))
    ensures HasType(SampledEnv(name, docs, allNullable), Document(docs[i]), Object(name))
  {
    ProperAdmitted(SampledEnv(name, docs, allNullable), Document(docs[i]), Object(name));
    SamplingExact(name, docs, allNullable, i);
  }
}
