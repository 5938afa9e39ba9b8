/** The types of columns, fields and arguments, and their normal form. */
module SchemaTypes {
  import opened BsonScalars

  datatype Type =
    | ExtendedJSON
    | Scalar(scalar: BsonScalarType)
    | Object(name: string)
    | ArrayOf(element: Type)
    | Nullable(inner: Type)
    | Predicate(objectTypeName: string)

  function Normalize(t: Type): Type {
    match t
    case ArrayOf(element) => ArrayOf(Normalize(element))
    case Nullable(inner) =>
      (match inner
       case ExtendedJSON => ExtendedJSON
       case Scalar(s) => if s.Null? then Scalar(Null) else Nullable(inner)
       case Nullable(_) => Normalize(inner)
       case _ => Nullable(Normalize(inner)))
    case _ => t
  }

  function MakeNullable(t: Type): Type {
    if t.ExtendedJSON? || t.Nullable? || t == Scalar(Null) then t else Nullable(t)
  }

  /** Null is a value of the type without wrapping it. */
  predicate AdmitsNull(t: Type) {
    t.ExtendedJSON? || t.Nullable? || t == Scalar(Null)
  }

  /** No redundant nullable layer anywhere. */
  predicate Normal(t: Type) {
    match t
    case ArrayOf(element) => Normal(element)
    case Nullable(inner) => !AdmitsNull(inner) && Normal(inner)
    case _ => true
  }

  /** Normalizing yields the normal form, and leaves exactly the normal types unchanged. */
  lemma {:induction false} NormalizeNormal(t: Type)
    ensures Normal(Normalize(t))
    ensures Normalize(t) == t <==> Normal(t)
  {
    match t
    case ArrayOf(element) => NormalizeNormal(element);
    case Nullable(inner) =>
      NormalizeNormal(inner);
      NormalizeSmaller(inner);
    case _ =>
  }

  function Size(t: Type): nat {
    match t
    case ArrayOf(element) => 1 + Size(element)
    case Nullable(inner) => 1 + Size(inner)
    case _ => 1
  }

  lemma {:induction false} NormalizeSmaller(t: Type)
    ensures Size(Normalize(t)) <= Size(t)
  {
    match t
    case ArrayOf(element) => NormalizeSmaller(element);
    case Nullable(inner) => NormalizeSmaller(inner);
    case _ =>
  }

  /** Wrapping and then normalizing is normalizing and then making nullable. */
  lemma {:induction false} NormalizeNullable(t: Type)
    ensures Normalize(Nullable(t)) == MakeNullable(Normalize(t))
    ensures Normalize(MakeNullable(t)) == MakeNullable(Normalize(t))
  {
    match t
    case Nullable(inner) => NormalizeNullable(inner);
    case _ =>
  }

  lemma MakeNullableNormal(t: Type)
    requires Normal(t)
    ensures Normal(MakeNullable(t)) && AdmitsNull(MakeNullable(t))
  {
  }
}
