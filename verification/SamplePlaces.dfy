/**
 When sampled documents inhabit the inferred types, told from the sample: at each place where a document
 holds an undefined value, the values that all documents hold there decide.
 */
module SamplePlaces {
  import opened Text
  import opened BsonScalars
  import opened ScalarValues
  import opened SchemaTypes
  import opened TypeUnification
  import opened ObjectTypes
  import opened Sampling

  // ----- the values at a place -----

  /** The documents within a value for which the type name is generated. */
  function DocumentsIn(name: string, value: Bson, m: string): seq<seq<Field>>
    decreases value, 0
  {
    match value
    case Leaf(_) => []
    case Array(elements) => DocumentsInAll(name, elements, m)
    case Document(fields) => (if m == name then [fields] else []) + DocumentsInFields(name, fields, m)
  }

  function DocumentsInAll(name: string, elements: seq<Bson>, m: string): seq<seq<Field>>
    decreases elements, 1
  {
    if elements == [] then []
    else DocumentsInAll(name, elements[..|elements| - 1], m) + DocumentsIn(name, elements[|elements| - 1], m)
  }

  function DocumentsInFields(name: string, fields: seq<Field>, m: string): seq<seq<Field>>
    decreases fields, 1
  {
    if fields == [] then []
    else
      DocumentsInFields(name, fields[..|fields| - 1], m)
      + DocumentsIn(name + "_" + fields[|fields| - 1].name, fields[|fields| - 1].value, m)
  }

  function DocumentValues(docs: seq<seq<Field>>): (values: seq<Bson>)
    ensures |values| == |docs|
  {
    seq(|docs|, i requires 0 <= i < |docs| => Document(docs[i]))
  }

  /** The values of a field in a document. */
  function ValuesOf(f: string, fields: seq<Field>): seq<Bson> {
    if fields == [] then []
    else
      ValuesOf(f, fields[..|fields| - 1])
      + if fields[|fields| - 1].name == f then [fields[|fields| - 1].value] else []
  }

  /** The values of a field in all the documents. */
  function FieldValues(f: string, docs: seq<seq<Field>>): seq<Bson> {
    if docs == [] then [] else FieldValues(f, docs[..|docs| - 1]) + ValuesOf(f, docs[|docs| - 1])
  }

  function ElementsOf(value: Bson): seq<Bson> {
    if value.Array? then value.elements else []
  }

  /** The elements of all arrays among the values. */
  function AllElements(values: seq<Bson>): seq<Bson> {
    if values == [] then []
    else AllElements(values[..|values| - 1]) + ElementsOf(values[|values| - 1])
  }

  // ----- unification of concatenated values -----

  lemma {:induction false} ElementTypeAppend(name: string, xs: seq<Bson>, ys: seq<Bson>)
    ensures ElementType(name, xs + ys) == Unify(ElementType(name, xs), ElementType(name, ys))
  {
    ElementTypeNormal(name, xs);
    if ys == [] {
      assert xs + ys == xs;
      UnifyBounds(ElementType(name, xs));
      NormalizeNormal(ElementType(name, xs));
    } else {
      var init, last := ys[..|ys| - 1], ys[|ys| - 1];
      ElementTypeAppend(name, xs, init);
      assert (xs + ys)[..|xs + ys| - 1] == xs + init;
      UnifyAssociative(ElementType(name, xs), ElementType(name, init), TypeOf(name, last));
    }
  }

  lemma {:induction false} FieldValuesAppend(f: string, ds: seq<seq<Field>>, es: seq<seq<Field>>)
    ensures FieldValues(f, ds + es) == FieldValues(f, ds) + FieldValues(f, es)
  {
    if es == [] {
      assert ds + es == ds;
    } else {
      var init, last := es[..|es| - 1], es[|es| - 1];
      FieldValuesAppend(f, ds, init);
      assert (ds + es)[..|ds + es| - 1] == ds + init && (ds + es)[|ds + es| - 1] == last;
      Regroup(FieldValues(f, ds), FieldValues(f, init), ValuesOf(f, last));
    }
  }

  lemma ElementTypeSingle(name: string, value: Bson)
    ensures ElementType(name, [value]) == TypeOf(name, value)
  {
    assert [value][..0] == [];
    TypeOfNormal(name, value);
    UnifyBounds(TypeOf(name, value));
    NormalizeNormal(TypeOf(name, value));
  }

  // ----- types up to nullability -----

  predicate UpToNull(a: Type, b: Type) {
    a == b || a == MakeNullable(b)
  }

  function NullableIf(t: Type, nullable: bool): Type {
    if nullable then MakeNullable(t) else t
  }

  lemma UnifyNullableIf(a: Type, m: bool, b: Type, n: bool)
    requires Normal(a) && Normal(b)
    ensures Unify(NullableIf(a, m), NullableIf(b, n)) == NullableIf(Unify(a, b), m || n)
  {
    var missing := Nullable(Scalar(Undefined));
    UnifyNormal(a, b);
    MakeNullableIsUnify(a);
    MakeNullableIsUnify(b);
    MakeNullableIsUnify(Unify(a, b));
    UnifyAssociative(a, b, missing);
    UnifyAssociative(a, missing, b);
    UnifyCommutative(missing, b);
    UnifyAssociative(Unify(a, missing), b, missing);
    UnifyAssociative(Unify(a, b), missing, missing);
    UnifyIdempotent(missing);
  }

  // ----- inferred field types -----

  lemma {:induction false} ValuesAbsent(f: string, fields: seq<Field>)
    requires !Present(fields, f)
    ensures ValuesOf(f, fields) == []
  {
    if fields != [] {
      var init := fields[..|fields| - 1];
      forall i | 0 <= i < |init| ensures init[i].name != f {
        assert init[i] == fields[i];
      }
      ValuesAbsent(f, init);
    }
  }

  lemma {:induction false} ValuesPresent(fields: seq<Field>, i: nat)
    requires UniqueKeys(fields) && i < |fields|
    ensures ValuesOf(fields[i].name, fields) == [fields[i].value]
  {
    var init := fields[..|fields| - 1];
    if i < |fields| - 1 {
      ValuesPresent(init, i);
    } else {
      ValuesAbsent(fields[i].name, init);
    }
  }

  /** The types of one document's fields. */
  lemma OwnFieldType(name: string, fields: seq<Field>, isCollection: bool, allNullable: bool, f: string)
    requires UniqueKeys(fields)
    ensures f in FieldTypes(name, fields, isCollection, allNullable) <==> Present(fields, f)
    ensures FieldType(FieldTypes(name, fields, isCollection, allNullable), f)
         == NullableIf(ElementType(name + "_" + f, ValuesOf(f, fields)),
                       (allNullable && !(isCollection && f == "_id")) || !Present(fields, f))
  {
    if Present(fields, f) {
      var i :| 0 <= i < |fields| && fields[i].name == f;
      ValuesPresent(fields, i);
      FieldTypesExact(name, fields, isCollection, allNullable, i);
      ElementTypeSingle(name + "_" + f, fields[i].value);
    } else {
      ValuesAbsent(f, fields);
      if f in FieldTypes(name, fields, isCollection, allNullable) {
        FieldTypesPresent(name, fields, isCollection, allNullable, f);
      }
    }
  }

  /** Which fields of which object types are made nullable in any case. */
  type Widening = (string, string) -> bool

  /** Some document lacks the field. */
  predicate Lacking(f: string, docs: seq<seq<Field>>) {
    exists i :: 0 <= i < |docs| && !Present(docs[i], f)
  }

  /** The union of the field's values, made nullable if some document lacks the field or all such fields are. */
  function GatheredType(m: string, f: string, docs: seq<seq<Field>>, widened: Widening): Type {
    NullableIf(ElementType(m + "_" + f, FieldValues(f, docs)), widened(m, f) || Lacking(f, docs))
  }

  /** Some document has the field. */
  predicate Held(f: string, docs: seq<seq<Field>>) {
    exists i :: 0 <= i < |docs| && Present(docs[i], f)
  }

  predicate GathersField(o: ObjectType, m: string, f: string, docs: seq<seq<Field>>, widened: Widening) {
    (f in o <==> Held(f, docs)) && FieldType(o, f) == GatheredType(m, f, docs, widened)
  }

  /** The object type has the fields of the documents, with their types. */
  ghost predicate Gathers(o: ObjectType, m: string, docs: seq<seq<Field>>, widened: Widening) {
    forall f :: GathersField(o, m, f, docs, widened)
  }

  lemma GathersBoth(a: ObjectType, b: ObjectType, m: string, ds: seq<seq<Field>>, es: seq<seq<Field>>,
                    widened: Widening)
    requires NormalObject(a) && NormalObject(b) && Gathers(a, m, ds, widened) && Gathers(b, m, es, widened)
    ensures Gathers(UnifyObjects(a, b), m, ds + es, widened)
  {
    forall f ensures GathersField(UnifyObjects(a, b), m, f, ds + es, widened) {
      assert GathersField(a, m, f, ds, widened) && GathersField(b, m, f, es, widened);
      var n := m + "_" + f;
      var xs, ys := FieldValues(f, ds), FieldValues(f, es);
      UnifiedField(a, b, f);
      FieldValuesAppend(f, ds, es);
      ElementTypeAppend(n, xs, ys);
      ElementTypeNormal(n, xs);
      ElementTypeNormal(n, ys);
      LackingAppend(f, ds, es);
      HeldAppend(f, ds, es);
      UnifyNullableIf(ElementType(n, xs), widened(m, f) || Lacking(f, ds),
                      ElementType(n, ys), widened(m, f) || Lacking(f, es));
    }
  }

  lemma LackingAppend(f: string, ds: seq<seq<Field>>, es: seq<seq<Field>>)
    ensures Lacking(f, ds + es) <==> Lacking(f, ds) || Lacking(f, es)
  {
    assert forall i :: 0 <= i < |ds| ==> (ds + es)[i] == ds[i];
    assert forall i :: 0 <= i < |es| ==> (ds + es)[|ds| + i] == es[i];
  }

  lemma HeldAppend(f: string, ds: seq<seq<Field>>, es: seq<seq<Field>>)
    ensures Held(f, ds + es) <==> Held(f, ds) || Held(f, es)
  {
    assert forall i :: 0 <= i < |ds| ==> (ds + es)[i] == ds[i];
    assert forall i :: 0 <= i < |es| ==> (ds + es)[|ds| + i] == es[i];
  }

  /** The environment gathers the documents under the name. */
  ghost predicate GathersAt(env: Env, m: string, docs: seq<seq<Field>>, widened: Widening) {
    (m in env <==> docs != []) && (m in env ==> Gathers(env[m], m, docs, widened))
  }

  ghost predicate GathersAll(env: Env, documents: string -> seq<seq<Field>>, widened: Widening) {
    forall m {:trigger m in env} {:trigger documents(m)} :: GathersAt(env, m, documents(m), widened)
  }

  lemma UnifiedGathers(a: Env, b: Env, ds: string -> seq<seq<Field>>, es: string -> seq<seq<Field>>,
                       widened: Widening)
    requires NormalEnv(a) && NormalEnv(b) && GathersAll(a, ds, widened) && GathersAll(b, es, widened)
    ensures GathersAll(UnifyEnvs(a, b), m => ds(m) + es(m), widened)
  {
    forall m ensures GathersAt(UnifyEnvs(a, b), m, ds(m) + es(m), widened) {
      UnifiedGathersAt(a, b, m, ds(m), es(m), widened);
    }
  }

  lemma UnifiedGathersAt(a: Env, b: Env, m: string, ds: seq<seq<Field>>, es: seq<seq<Field>>, widened: Widening)
    requires NormalEnv(a) && NormalEnv(b) && GathersAt(a, m, ds, widened) && GathersAt(b, m, es, widened)
    ensures GathersAt(UnifyEnvs(a, b), m, ds + es, widened)
  {
    if m in a && m in b {
      GathersBoth(a[m], b[m], m, ds, es, widened);
    } else if m in a {
      assert ds + es == ds;
    } else if m in b {
      assert ds + es == es;
    }
  }

  /** All fields are made nullable, but for the `_id` of the collection type. */
  function Widened(collection: string, allNullable: bool): Widening {
    (m: string, f: string) => allNullable && !(m == collection && f == "_id")
  }

  lemma {:induction false} EnvGathers(collection: string, name: string, value: Bson, allNullable: bool)
    requires Keyed(value) && NoClash(name, value) && !Extends(collection, name)
    ensures GathersAll(EnvOf(name, value, allNullable), m => DocumentsIn(name, value, m),
                       Widened(collection, allNullable))
    decreases value, 0
  {
    match value
    case Leaf(_) =>
    case Array(elements) => ElementsGather(collection, name, elements, allNullable);
    case Document(fields) => DocumentGathers(collection, name, fields, allNullable);
  }

  lemma {:induction false} ElementsGather(collection: string, name: string, elements: seq<Bson>, allNullable: bool)
    requires forall i :: 0 <= i < |elements| ==> Keyed(elements[i]) && NoClash(name, elements[i])
    requires !Extends(collection, name)
    ensures GathersAll(ElementsEnv(name, elements, allNullable), m => DocumentsInAll(name, elements, m),
                       Widened(collection, allNullable))
    decreases elements, 1
  {
    if elements != [] {
      var init, last := elements[..|elements| - 1], elements[|elements| - 1];
      ElementsGather(collection, name, init, allNullable);
      EnvGathers(collection, name, last, allNullable);
      ElementsEnvNormal(name, init, allNullable);
      EnvOfNormal(name, last, allNullable);
      UnifiedGathers(ElementsEnv(name, init, allNullable), EnvOf(name, last, allNullable),
                     m => DocumentsInAll(name, init, m), m => DocumentsIn(name, last, m),
                     Widened(collection, allNullable));
    }
  }

  /** A document of the collection itself, or one below it. */
  lemma {:induction false} DocumentGathers(collection: string, name: string, fields: seq<Field>, allNullable: bool)
    requires Keyed(Document(fields)) && NoClash(name, Document(fields))
    requires name == collection || !Extends(collection, name)
    ensures GathersAll(DocumentEnv(name, fields, name == collection, allNullable),
                       m => DocumentsIn(name, Document(fields), m), Widened(collection, allNullable))
    decreases fields, 2
  {
    var env, widened := DocumentEnv(name, fields, name == collection, allNullable), Widened(collection, allNullable);
    FieldsGather(collection, name, fields, allNullable);
    OwnNameFresh(name, fields);
    FieldsEnvNames(name, fields, allNullable);
    OwnTypeGathers(collection, name, fields, allNullable);
    forall m ensures GathersAt(env, m, DocumentsIn(name, Document(fields), m), widened) {
      var inner := DocumentsInFields(name, fields, m);
      if m == name {
        assert inner == [] && [fields] + inner == [fields];
      } else {
        assert [] + inner == inner;
        assert m in env <==> m in FieldsEnv(name, fields, allNullable);
      }
    }
  }

  lemma OwnTypeGathers(collection: string, name: string, fields: seq<Field>, allNullable: bool)
    requires UniqueKeys(fields)
    ensures Gathers(FieldTypes(name, fields, name == collection, allNullable), name, [fields],
                    Widened(collection, allNullable))
  {
    var o := FieldTypes(name, fields, name == collection, allNullable);
    forall f ensures GathersField(o, name, f, [fields], Widened(collection, allNullable)) {
      OwnFieldType(name, fields, name == collection, allNullable, f);
      assert [fields][..0] == [] && [fields][0] == fields;
      assert FieldValues(f, [fields]) == ValuesOf(f, fields);
      assert Lacking(f, [fields]) <==> !Present(fields, f);
      assert Held(f, [fields]) <==> Present(fields, f);
    }
  }

  lemma {:induction false} FieldsGather(collection: string, name: string, fields: seq<Field>, allNullable: bool)
    requires forall i :: 0 <= i < |fields| ==>
      Keyed(fields[i].value) && NoClash(name + "_" + fields[i].name, fields[i].value)
    requires forall i, j :: 0 <= i < j < |fields| ==>
      NamesOf(name + "_" + fields[i].name, fields[i].value) !! NamesOf(name + "_" + fields[j].name, fields[j].value)
    requires name == collection || !Extends(collection, name)
    ensures GathersAll(FieldsEnv(name, fields, allNullable), m => DocumentsInFields(name, fields, m),
                       Widened(collection, allNullable))
    decreases fields, 1
  {
    if fields != [] {
      var init, last := fields[..|fields| - 1], fields[|fields| - 1];
      var nested := name + "_" + last.name;
      var a, b := FieldsEnv(name, init, allNullable), EnvOf(nested, last.value, allNullable);
      FieldsGather(collection, name, init, allNullable);
      NestedElsewhere(collection, name, last.name);
      EnvGathers(collection, nested, last.value, allNullable);
      EnvNames(nested, last.value, allNullable);
      FieldsEnvNames(name, init, allNullable);
      FieldNamesDisjoint(name, init, NamesOf(nested, last.value));
      DisjointGathers(a, b, m => DocumentsInFields(name, init, m), m => DocumentsIn(nested, last.value, m),
                      Widened(collection, allNullable));
    }
  }

  lemma NestedElsewhere(collection: string, name: string, f: string)
    requires name == collection || !Extends(collection, name)
    ensures !Extends(collection, name + "_" + f)
  {
    var nested := name + "_" + f;
    assert nested[..|name| + 1] == name + "_" && (nested + "_")[..|name| + 1] == name + "_";
  }

  lemma DisjointGathers(a: Env, b: Env, ds: string -> seq<seq<Field>>, es: string -> seq<seq<Field>>,
                        widened: Widening)
    requires GathersAll(a, ds, widened) && GathersAll(b, es, widened) && a.Keys !! b.Keys
    ensures GathersAll(a + b, m => ds(m) + es(m), widened)
  {
    forall m ensures GathersAt(a + b, m, ds(m) + es(m), widened) {
      assert m !in a ==> ds(m) + es(m) == es(m);
      assert m !in b ==> ds(m) + es(m) == ds(m);
    }
  }

  lemma {:induction false} FieldNamesDisjoint(name: string, fields: seq<Field>, names: set<string>)
    requires forall i :: 0 <= i < |fields| ==> NamesOf(name + "_" + fields[i].name, fields[i].value) !! names
    ensures FieldNames(name, fields) !! names
  {
    if fields != [] {
      FieldNamesDisjoint(name, fields[..|fields| - 1], names);
    }
  }

  // ----- the sampled environment -----

  /** The documents in the sample for which the type name is generated. */
  function SampleDocuments(name: string, docs: seq<seq<Field>>, m: string): seq<seq<Field>> {
    DocumentsInAll(name, DocumentValues(docs), m)
  }

  predicate ClashFree(name: string, docs: seq<seq<Field>>) {
    forall i :: 0 <= i < |docs| ==> Keyed(Document(docs[i])) && NoClash(name, Document(docs[i]))
  }

  lemma {:induction false} SampleGathers(name: string, docs: seq<seq<Field>>, allNullable: bool)
    requires ClashFree(name, docs)
    ensures GathersAll(SampledEnv(name, docs, allNullable), m => SampleDocuments(name, docs, m),
                       Widened(name, allNullable))
  {
    if docs != [] {
      var init, last := docs[..|docs| - 1], docs[|docs| - 1];
      var values := DocumentValues(docs);
      SampleGathers(name, init, allNullable);
      DocumentGathers(name, name, last, allNullable);
      SampledEnvNormal(name, init, allNullable);
      DocumentEnvNormal(name, last, true, allNullable);
      UnifiedGathers(SampledEnv(name, init, allNullable), DocumentEnv(name, last, true, allNullable),
                     m => SampleDocuments(name, init, m), m => DocumentsIn(name, Document(last), m),
                     Widened(name, allNullable));
      assert values[..|values| - 1] == DocumentValues(init) && values[|values| - 1] == Document(last);
    }
  }

  // ----- the type of a value -----

  /**
   The value has the type, if documents are told by the names generated for them. Undefined values count as
   values of every type, and null is one of every nullable type but the type of a missing field.
   */
  predicate Fits(n: string, value: Bson, t: Type)
    decreases value, t
  {
    value == Leaf(UndefinedValue) ||
    match t
    case ExtendedJSON => true
    case Scalar(s) => value.Leaf? && Inhabits(value.value, s)
    case Object(name) => value.Document? && name == n
    case ArrayOf(element) =>
      value.Array? && forall i :: 0 <= i < |value.elements| ==> Fits(n, value.elements[i], element)
    case Nullable(inner) => (IsNull(value) && inner != Scalar(Undefined)) || Fits(n, value, inner)
    case Predicate(_) => false
  }

  /** The types of a value are exactly those above the type that is inferred for it. */
  lemma {:induction false} TypeOfExact(n: string, value: Bson, t: Type)
    requires Normal(t)
    ensures Below(TypeOf(n, value), t) <==> Fits(n, value, t)
    decreases value, t
  {
    BottomAndTop(t);
    match t
    case Nullable(inner) => TypeOfExact(n, value, inner);
    case ArrayOf(element) =>
      if value.Array? {
        forall i | 0 <= i < |value.elements|
          ensures Below(TypeOf(n, value.elements[i]), element) <==> Fits(n, value.elements[i], element)
        {
          TypeOfExact(n, value.elements[i], element);
        }
        UnionBelow(n, value.elements, element);
      }
    case Scalar(s) => if value.Leaf? { InhabitsExact(value.value, s); }
    case _ =>
  }

  lemma UnionBelow(n: string, values: seq<Bson>, t: Type)
    requires Normal(t)
    ensures Below(ElementType(n, values), t) <==> TypesAll(n, values, t)
  {
    if TypesAll(n, values, t) {
      UnionLeast(n, values, t);
    }
    if Below(ElementType(n, values), t) {
      forall i | 0 <= i < |values| ensures Below(TypeOf(n, values[i]), t) {
        ElementTypeAbove(n, values, i);
        ElementTypeNormal(n, values);
        TypeOfNormal(n, values[i]);
        BelowTransitive(TypeOf(n, values[i]), ElementType(n, values), t);
      }
    }
  }

  // ----- nullability -----

  lemma UnifyAdmitsNull(a: Type, b: Type)
    requires Normal(a) && Normal(b)
    ensures AdmitsNull(Unify(a, b)) <==> AdmitsNull(a) || AdmitsNull(b) || Unify(a, b).ExtendedJSON?
  {
    NormalizeNormal(a);
    NormalizeNormal(b);
    if a.Nullable? { UnifyNormal(a.inner, b); NormalizeNullable(Unify(a.inner, b)); }
    if b.Nullable? { UnifyNormal(a, b.inner); NormalizeNullable(Unify(a, b.inner)); }
  }

  /** A union admits null if there is a null among the values, and otherwise only as extended JSON. */
  lemma {:induction false} UnionAdmitsNull(n: string, values: seq<Bson>)
    ensures AdmitsNull(ElementType(n, values)) <==> Leaf(NullValue) in values || ElementType(n, values).ExtendedJSON?
  {
    if values != [] {
      var init, last := values[..|values| - 1], values[|values| - 1];
      UnionAdmitsNull(n, init);
      ElementTypeNormal(n, init);
      TypeOfNormal(n, last);
      UnifyAdmitsNull(ElementType(n, init), TypeOf(n, last));
      assert values == init + [last];
      assert AdmitsNull(TypeOf(n, last)) <==> last == Leaf(NullValue);
    }
  }

  /** The type is above the types of all values. */
  ghost predicate TypesAll(n: string, values: seq<Bson>, t: Type) {
    Normal(t) && forall i :: 0 <= i < |values| ==> Below(TypeOf(n, values[i]), t)
  }

  /** Only extended JSON is above the types of all values. */
  ghost predicate NothingInCommon(n: string, values: seq<Bson>) {
    forall t :: TypesAll(n, values, t) ==> t.ExtendedJSON?
  }

  lemma {:induction false} UnionLeast(n: string, values: seq<Bson>, t: Type)
    requires TypesAll(n, values, t)
    ensures Below(ElementType(n, values), t)
  {
    if values == [] {
      BottomAndTop(t);
    } else {
      var init, last := values[..|values| - 1], values[|values| - 1];
      forall i | 0 <= i < |init| ensures Below(TypeOf(n, init[i]), t) {
        assert init[i] == values[i];
      }
      UnionLeast(n, init, t);
      ElementTypeNormal(n, init);
      TypeOfNormal(n, last);
      UnifyNormalIsLub(ElementType(n, init), TypeOf(n, last), t);
    }
  }

  lemma UnionExact(n: string, values: seq<Bson>)
    ensures ElementType(n, values).ExtendedJSON? <==> NothingInCommon(n, values)
  {
    ElementTypeNormal(n, values);
    forall i | 0 <= i < |values| ensures Below(TypeOf(n, values[i]), ElementType(n, values)) {
      ElementTypeAbove(n, values, i);
    }
    assert TypesAll(n, values, ElementType(n, values));
    forall t | TypesAll(n, values, t) ensures ElementType(n, values).ExtendedJSON? ==> t.ExtendedJSON? {
      UnionLeast(n, values, t);
    }
  }

  /**
   In a sample whose documents have no clashing type names a field is nullable exactly if all fields are
   to be, and it is not the `_id` of the collection, or some document lacks the field or holds null in it, or
   its values have no common type.
   */
  lemma SampleNullable(name: string, docs: seq<seq<Field>>, allNullable: bool, m: string, f: string)
    requires ClashFree(name, docs)
    requires m in SampledEnv(name, docs, allNullable) && f in SampledEnv(name, docs, allNullable)[m]
    ensures var documents := SampleDocuments(name, docs, m);
      AdmitsNull(SampledEnv(name, docs, allNullable)[m][f]) <==>
        || (allNullable && !(m == name && f == "_id"))
        || Lacking(f, documents)
        || Leaf(NullValue) in FieldValues(f, documents)
        || NothingInCommon(m + "_" + f, FieldValues(f, documents))
  {
    var env, documents := SampledEnv(name, docs, allNullable), SampleDocuments(name, docs, m);
    var n, values := m + "_" + f, FieldValues(f, documents);
    SampleGathers(name, docs, allNullable);
    assert GathersField(env[m], m, f, documents, Widened(name, allNullable));
    UnionAdmitsNull(n, values);
    UnionExact(n, values);
  }

  // ----- where undefined values are admitted -----

  /**
   The undefined values within a value are admitted by what the sample holds at their places: there or
   further out the values unify to extended JSON, or there they are all undefined. `values` are the values
   at the place of the value itself, for which the type name is `n`.
   */
  predicate PlaceAdmits(name: string, docs: seq<seq<Field>>, n: string, values: seq<Bson>, value: Bson)
    decreases value
  {
    ElementType(n, values).ExtendedJSON? ||
    match value
    case Leaf(leaf) => leaf != UndefinedValue || forall i :: 0 <= i < |values| ==> values[i] == Leaf(UndefinedValue)
    case Array(elements) =>
      forall i :: 0 <= i < |elements| ==> PlaceAdmits(name, docs, n, AllElements(values), elements[i])
    case Document(fields) =>
      forall i :: 0 <= i < |fields| ==>
        PlaceAdmits(name, docs, n + "_" + fields[i].name, FieldValues(fields[i].name, SampleDocuments(name, docs, n)),
                    fields[i].value)
  }

  // ----- the union of values -----

  lemma UnifyIsUndefined(a: Type, b: Type)
    requires Normal(a) && Normal(b)
    ensures Unify(a, b) == Scalar(Undefined) <==> a == Scalar(Undefined) && b == Scalar(Undefined)
  {
    UnifyNormalIsLub(a, b, a);
    BelowUndefined(a);
    BelowUndefined(b);
  }

  /** The union is undefined exactly if all values are, and never nullable undefined. */
  lemma {:induction false} UnionOfUndefined(n: string, values: seq<Bson>)
    ensures ElementType(n, values) == Scalar(Undefined)
       <==> forall i :: 0 <= i < |values| ==> values[i] == Leaf(UndefinedValue)
    ensures ElementType(n, values) != Nullable(Scalar(Undefined))
  {
    if values != [] {
      var init, last := values[..|values| - 1], values[|values| - 1];
      var t, x := ElementType(n, init), TypeOf(n, last);
      UnionOfUndefined(n, init);
      ElementTypeNormal(n, init);
      TypeOfNormal(n, last);
      UnifyIsUndefined(t, x);
      assert x == Scalar(Undefined) <==> last == Leaf(UndefinedValue);
      NotNullableUndefined(t, x);
      assert values == init + [last];
    }
  }

  lemma NotNullableUndefined(t: Type, x: Type)
    requires Normal(t) && Normal(x) && t != Nullable(Scalar(Undefined)) && !x.Nullable?
    ensures Unify(t, x) != Nullable(Scalar(Undefined))
  {
    if t.Nullable? && x != Scalar(Undefined) {
      UnifyNormal(t.inner, x);
      UnifyIsUndefined(t.inner, x);
    }
    NormalizeNormal(t);
    NormalizeNormal(x);
  }

  /** The type without its nullable layer. */
  function Core(t: Type): Type {
    if t.Nullable? then t.inner else t
  }

  /** If the union is an array type, its elements are the union of all elements; if it is none, there are no arrays. */
  lemma {:induction false} UnionOfArrays(n: string, values: seq<Bson>)
    ensures var t := ElementType(n, values);
      t.ExtendedJSON? || if Core(t).ArrayOf? then Core(t).element == ElementType(n, AllElements(values))
                         else AllElements(values) == [] && forall i :: 0 <= i < |values| ==> !values[i].Array?
  {
    if values != [] {
      var init, last := values[..|values| - 1], values[|values| - 1];
      UnionOfArrays(n, init);
      ElementTypeNormal(n, init);
      UnionOfUndefined(n, init);
      ElementTypeAppend(n, AllElements(init), ElementsOf(last));
      assert values == init + [last];
      OneMoreInUnion(n, ElementType(n, init), last, AllElements(init));
    }
  }

  lemma ArrayIntoUnion(t: Type, element: Type)
    requires Normal(t) && Normal(element)
    ensures var u := Unify(t, ArrayOf(element));
      if Core(t).ArrayOf? then Core(u) == ArrayOf(Unify(Core(t).element, element))
      else if t == Scalar(Undefined) || t == Scalar(Null) || t == Nullable(Scalar(Undefined)) then
        Core(u) == ArrayOf(element)
      else u.ExtendedJSON?
  {
    NormalizeNormal(t);
    NormalizeNormal(element);
    NormalizeNormal(ArrayOf(element));
    NormalizeNormal(Core(t));
    if Core(t).ArrayOf? {
      UnifyNormal(Core(t).element, element);
      UnifyNormal(Core(t), ArrayOf(element));
    }
  }

  lemma OtherIntoUnion(t: Type, x: Type)
    requires Normal(t) && Normal(x) && !x.ArrayOf? && !x.Nullable?
    ensures var u := Unify(t, x);
      u.ExtendedJSON? || if Core(t).ArrayOf? then Core(u) == Core(t) else !Core(u).ArrayOf?
  {
    NormalizeNormal(t);
    NormalizeNormal(x);
    NormalizeNormal(Core(t));
    UnifyNormal(Core(t), x);
  }

  lemma OneMoreInUnion(n: string, t: Type, last: Bson, elements: seq<Bson>)
    requires Normal(t)
    requires t.ExtendedJSON? || if Core(t).ArrayOf? then Core(t).element == ElementType(n, elements) else elements == []
    requires ElementType(n, elements + ElementsOf(last))
          == Unify(ElementType(n, elements), ElementType(n, ElementsOf(last)))
    ensures var u := Unify(t, TypeOf(n, last));
      u.ExtendedJSON? || if Core(u).ArrayOf? then Core(u).element == ElementType(n, elements + ElementsOf(last))
                         else elements + ElementsOf(last) == [] && !last.Array?
  {
    TypeOfNormal(n, last);
    if last.Array? {
      ElementTypeNormal(n, last.elements);
      ArrayIntoUnion(t, ElementType(n, last.elements));
      assert elements == [] ==> elements + last.elements == last.elements;
    } else {
      OtherIntoUnion(t, TypeOf(n, last));
      assert elements + [] == elements;
    }
  }

  // ----- members -----

  lemma {:induction false} ElementsMember(values: seq<Bson>, value: Bson, i: nat)
    requires value in values && value.Array? && i < |value.elements|
    ensures value.elements[i] in AllElements(values)
  {
    var init, last := values[..|values| - 1], values[|values| - 1];
    assert values == init + [last];
    if value in init {
      ElementsMember(init, value, i);
    } else {
      assert value.elements[i] in ElementsOf(last);
    }
  }

  lemma {:induction false} FieldMember(docs: seq<seq<Field>>, fields: seq<Field>, i: nat)
    requires fields in docs && UniqueKeys(fields) && i < |fields|
    ensures fields[i].value in FieldValues(fields[i].name, docs)
  {
    var init, last := docs[..|docs| - 1], docs[|docs| - 1];
    assert docs == init + [last];
    if fields in init {
      FieldMember(init, fields, i);
    } else {
      ValuesPresent(fields, i);
      assert fields[i].value in ValuesOf(fields[i].name, last);
    }
  }

  /** The documents within a value are among those of the sample. */
  ghost predicate Occurs(name: string, docs: seq<seq<Field>>, n: string, value: Bson) {
    forall m, d :: d in DocumentsIn(n, value, m) ==> d in SampleDocuments(name, docs, m)
  }

  lemma {:induction false} ElementDocuments(n: string, elements: seq<Bson>, i: nat, m: string)
    requires i < |elements|
    ensures forall d :: d in DocumentsIn(n, elements[i], m) ==> d in DocumentsInAll(n, elements, m)
  {
    if i < |elements| - 1 {
      ElementDocuments(n, elements[..|elements| - 1], i, m);
    }
  }

  lemma {:induction false} FieldDocuments(n: string, fields: seq<Field>, i: nat, m: string)
    requires i < |fields|
    ensures forall d :: d in DocumentsIn(n + "_" + fields[i].name, fields[i].value, m) ==>
      d in DocumentsInFields(n, fields, m)
  {
    if i < |fields| - 1 {
      FieldDocuments(n, fields[..|fields| - 1], i, m);
    }
  }

  lemma ElementOccurs(name: string, docs: seq<seq<Field>>, n: string, elements: seq<Bson>, i: nat)
    requires i < |elements| && Occurs(name, docs, n, Array(elements))
    ensures Occurs(name, docs, n, elements[i])
  {
    forall m, d | d in DocumentsIn(n, elements[i], m) ensures d in SampleDocuments(name, docs, m) {
      ElementDocuments(n, elements, i, m);
      assert d in DocumentsIn(n, Array(elements), m);
    }
  }

  lemma FieldOccurs(name: string, docs: seq<seq<Field>>, n: string, fields: seq<Field>, i: nat)
    requires i < |fields| && Occurs(name, docs, n, Document(fields))
    ensures Occurs(name, docs, n + "_" + fields[i].name, fields[i].value)
    ensures fields in SampleDocuments(name, docs, n)
  {
    forall m, d | d in DocumentsIn(n + "_" + fields[i].name, fields[i].value, m)
      ensures d in SampleDocuments(name, docs, m)
    {
      FieldDocuments(n, fields, i, m);
      assert d in DocumentsIn(n, Document(fields), m);
    }
    assert fields in DocumentsIn(n, Document(fields), n);
  }

  // ----- the condition on the sample is that on the inferred types -----

  lemma MemberBelow(n: string, values: seq<Bson>, value: Bson)
    requires value in values
    ensures Below(TypeOf(n, value), ElementType(n, values)) && Normal(ElementType(n, values))
  {
    var i :| 0 <= i < |values| && values[i] == value;
    ElementTypeAbove(n, values, i);
    ElementTypeNormal(n, values);
  }

  /** The type at a place, up to nullability, has the same core as the union of its values. */
  lemma SameCore(t: Type, u: Type)
    requires Normal(u) && UpToNull(t, u)
    ensures u.ExtendedJSON? ==> t.ExtendedJSON?
    ensures u == Scalar(Null) ==> t == u
    ensures u != Scalar(Null) ==> Core(t) == Core(u)
  {
  }

  lemma LeafExact(env: Env, n: string, values: seq<Bson>, t: Type)
    requires Leaf(UndefinedValue) in values && UpToNull(t, ElementType(n, values))
    ensures AdmitsUndefined(t) <==>
      ElementType(n, values).ExtendedJSON? || forall i :: 0 <= i < |values| ==> values[i] == Leaf(UndefinedValue)
  {
    MemberBelow(n, values, Leaf(UndefinedValue));
    UnionOfUndefined(n, values);
    SameCore(t, ElementType(n, values));
  }

  lemma {:induction false} PlaceExact(name: string, docs: seq<seq<Field>>, allNullable: bool, env: Env, n: string,
                                      values: seq<Bson>, value: Bson, t: Type)
    requires GathersAll(env, m => SampleDocuments(name, docs, m), Widened(name, allNullable))
    requires Keyed(value) && value in values && Occurs(name, docs, n, value) && UpToNull(t, ElementType(n, values))
    ensures PlaceAdmits(name, docs, n, values, value) <==> UndefinedAdmitted(env, value, t)
    decreases value
  {
    var u := ElementType(n, values);
    MemberBelow(n, values, value);
    SameCore(t, u);
    if !u.ExtendedJSON? {
      match value
      case Leaf(leaf) => if leaf == UndefinedValue { LeafExact(env, n, values, t); }
      case Array(elements) =>
        UnionOfArrays(n, values);
        assert Core(u).ArrayOf?;
        forall i | 0 <= i < |elements|
          ensures PlaceAdmits(name, docs, n, AllElements(values), elements[i])
             <==> UndefinedAdmitted(env, elements[i], Core(t).element)
        {
          ElementsMember(values, value, i);
          ElementOccurs(name, docs, n, elements, i);
          PlaceExact(name, docs, allNullable, env, n, AllElements(values), elements[i], Core(t).element);
        }
      case Document(fields) =>
        assert Core(u) == Object(n);
        forall i | 0 <= i < |fields|
          ensures n in env
          ensures FieldPlaceAdmits(name, docs, n, fields, i)
             <==> (fields[i].name in env[n] ==> UndefinedAdmitted(env, fields[i].value, env[n][fields[i].name]))
        {
          FieldPlaceExact(name, docs, allNullable, env, n, fields, i);
        }
    }
  }

  predicate FieldPlaceAdmits(name: string, docs: seq<seq<Field>>, n: string, fields: seq<Field>, i: nat)
    requires i < |fields|
  {
    PlaceAdmits(name, docs, n + "_" + fields[i].name, FieldValues(fields[i].name, SampleDocuments(name, docs, n)),
                fields[i].value)
  }

  lemma {:induction false} FieldPlaceExact(name: string, docs: seq<seq<Field>>, allNullable: bool, env: Env, n: string,
                                           fields: seq<Field>, i: nat)
    requires GathersAll(env, m => SampleDocuments(name, docs, m), Widened(name, allNullable))
    requires i < |fields| && Keyed(Document(fields)) && Occurs(name, docs, n, Document(fields))
    ensures n in env
    ensures FieldPlaceAdmits(name, docs, n, fields, i)
       <==> (fields[i].name in env[n] ==> UndefinedAdmitted(env, fields[i].value, env[n][fields[i].name]))
    decreases fields, 0
  {
    var f, all := fields[i].name, SampleDocuments(name, docs, n);
    var values, nested := FieldValues(f, all), n + "_" + f;
    FieldOccurs(name, docs, n, fields, i);
    assert n in env && Gathers(env[n], n, all, Widened(name, allNullable));
    FieldMember(all, fields, i);
    assert GathersField(env[n], n, f, all, Widened(name, allNullable)) && Present(fields, f);
    PlaceExact(name, docs, allNullable, env, nested, values, fields[i].value, env[n][f]);
  }

  lemma {:induction false} RootUnion(name: string, docs: seq<seq<Field>>)
    requires docs != []
    ensures ElementType(name, DocumentValues(docs)) == Object(name)
  {
    var values, init := DocumentValues(docs), docs[..|docs| - 1];
    assert values[..|values| - 1] == DocumentValues(init);
    if init != [] {
      RootUnion(name, init);
    }
  }

  /**
   In a sample whose documents have no clashing type names, a document inhabits the inferred collection
   type exactly if each of its undefined values is at a place where the documents hold undefined values
   only, or where, there or further out, their values unify to extended JSON.
   */
  lemma SampleExact(name: string, docs: seq<seq<Field>>, allNullable: bool, i: nat)
    requires ClashFree(name, docs) && i < |docs|
    ensures HasType(SampledEnv(name, docs, allNullable), Document(docs[i]), Object(name))
       <==> PlaceAdmits(name, docs, name, DocumentValues(docs), Document(docs[i]))
  {
    var env, values := SampledEnv(name, docs, allNullable), DocumentValues(docs);
    SampleGathers(name, docs, allNullable);
    RootUnion(name, docs);
    assert values[i] == Document(docs[i]);
    forall m, d | d in DocumentsIn(name, values[i], m) ensures d in SampleDocuments(name, docs, m) {
      ElementDocuments(name, values, i, m);
    }
    PlaceExact(name, docs, allNullable, env, name, values, Document(docs[i]), Object(name));
    SamplingExact(name, docs, allNullable, i);
  }
}
