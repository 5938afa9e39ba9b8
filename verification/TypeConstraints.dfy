/** Type constraints: types that may refer to type variables, and what they refer to. */
module TypeConstraints {
  import opened BsonScalars
  import SchemaTypes

  datatype Variance = Covariant | Contravariant | Invariant

  datatype TypeVariable = TypeVariable(id: nat, variance: Variance)

  datatype TypeConstraint =
    | ExtendedJSON
    | Scalar(scalar: BsonScalarType)
    | Object(name: string)
    | ArrayOf(element: TypeConstraint)
    | Predicate(objectTypeName: string)
    | Union(types: set<TypeConstraint>)
    | OneOf(types: set<TypeConstraint>)
    | Variable(variable: TypeVariable)
    | ElementOf(container: TypeConstraint)
    | FieldOf(target: TypeConstraint, path: seq<string>)
    | WithFieldOverrides(augmentedName: string, target: TypeConstraint, fields: map<string, Override>)

  /** What an override does to a field. */
  datatype Override = Removed | Replaced(constraint: TypeConstraint)

  /** What constraints refer to: type variables, and object types by name. */
  datatype Node = VariableNode(variable: TypeVariable) | ObjectNode(name: string)

  function Refs(c: TypeConstraint): set<Node> {
    match c
    case ExtendedJSON => {}
    case Scalar(_) => {}
    case Object(name) => {ObjectNode(name)}
    case ArrayOf(element) => Refs(element)
    case Predicate(name) => {ObjectNode(name)}
    case Union(types) => set t, n | t in types && n in Refs(t) :: n
    case OneOf(types) => set t, n | t in types && n in Refs(t) :: n
    case Variable(v) => {VariableNode(v)}
    case ElementOf(container) => Refs(container)
    case FieldOf(target, _) => Refs(target)
    case WithFieldOverrides(_, target, fields) =>
      Refs(target) + set f, n | f in fields && fields[f].Replaced? && n in Refs(fields[f].constraint) :: n
  }

  const NULL_TYPE: TypeConstraint := Scalar(Null)

  function UnionOf(a: TypeConstraint, b: TypeConstraint): (u: TypeConstraint)
    ensures Refs(u) == Refs(a) + Refs(b)
  {
    if a.Union? && b.Union? then Union(a.types + b.types)
    else if a.Union? then Union(a.types + {b})
    else if b.Union? then Union(b.types + {a})
    else Union({a, b})
  }

  function MakeNullable(t: TypeConstraint): (nullable: TypeConstraint)
    ensures Refs(nullable) == Refs(t)
  {
    if t.ExtendedJSON? || t == NULL_TYPE then t else UnionOf(t, NULL_TYPE)
  }

  function FromType(t: SchemaTypes.Type): TypeConstraint {
    match t
    case ExtendedJSON => ExtendedJSON
    case Scalar(s) => Scalar(s)
    case Object(name) => Object(name)
    case ArrayOf(element) => ArrayOf(FromType(element))
    case Nullable(inner) => MakeNullable(FromType(inner))
    case Predicate(name) => Predicate(name)
  }

  lemma {:induction false} FromTypeRefs(t: SchemaTypes.Type)
    ensures forall n :: n in Refs(FromType(t)) <==> n.ObjectNode? && Names(t, n.name)
  {
    match t
    case ArrayOf(element) => FromTypeRefs(element);
    case Nullable(inner) => FromTypeRefs(inner);
    case _ =>
  }

  /** The type mentions the object type. */
  predicate Names(t: SchemaTypes.Type, name: string) {
    match t
    case Object(n) => n == name
    case Predicate(n) => n == name
    case ArrayOf(element) => Names(element, name)
    case Nullable(inner) => Names(inner, name)
    case _ => false
  }

  predicate IsNumeric(s: BsonScalarType) {
    s.Double? || s.Decimal? || s.Int? || s.Long?
  }

  predicate IsComparable(s: BsonScalarType) {
    !s.Regex? && !s.Javascript? && !s.JavascriptWithScope?
  }

  const NUMERIC_TYPE: TypeConstraint := OneOf(set s: BsonScalarType | IsNumeric(s) :: Scalar(s))
  const COMPARABLE_TYPE: TypeConstraint := OneOf(set s: BsonScalarType | IsComparable(s) :: Scalar(s))

  lemma NoRefs()
    ensures Refs(NUMERIC_TYPE) == {} && Refs(COMPARABLE_TYPE) == {}
  {
    forall t | t in NUMERIC_TYPE.types + COMPARABLE_TYPE.types ensures Refs(t) == {} {
      assert t.Scalar?;
    }
  }
}
