/** Which values each BSON scalar type has, told type by type. */
module ScalarValues {
  import opened BsonScalars

  /** The values of a scalar type; integers count as doubles, and UUIDs as binary data. */
  predicate Inhabits(value: BsonLeaf, s: BsonScalarType) {
    match s
    case Double => value.DoubleValue? || value.Int32?
    case Decimal => value.Decimal128?
    case Int => value.Int32?
    case Long => value.Int64?
    case String => value.StringValue?
    case Date => value.DateTime?
    case Timestamp => value.TimestampValue?
    case UUID => value == Binary(true)
    case BinData => value.Binary?
    case ObjectId => value.ObjectIdValue?
    case Bool => value.BooleanValue?
    case Null => value.NullValue?
    case Regex => value.RegularExpression?
    case Javascript => value.JavaScriptCode?
    case JavascriptWithScope => value.JavaScriptCodeWithScope?
    case MinKey => value.MinKeyValue?
    case MaxKey => value.MaxKeyValue?
    case Undefined => value.UndefinedValue?
    case DbPointer => value.DbPointerValue?
    case Symbol => value.SymbolValue?
  }

  /** The types of a value are those above the type it is given. */
  lemma InhabitsExact(value: BsonLeaf, s: BsonScalarType)
    ensures Inhabits(value, s) <==> ScalarBelow(ScalarOf(value), s)
  {
  }

  /** The order on scalars is that of their values. */
  lemma ScalarBelowExact(a: BsonScalarType, b: BsonScalarType)
    ensures ScalarBelow(a, b) <==> forall value: BsonLeaf :: Inhabits(value, a) ==> Inhabits(value, b)
  {
    var sample := SampleOf(a);
    forall value: BsonLeaf ensures Inhabits(value, a) && ScalarBelow(a, b) ==> Inhabits(value, b) {
      InhabitsExact(value, a);
      InhabitsExact(value, b);
    }
    InhabitsExact(sample, a);
    InhabitsExact(sample, b);
  }

  /** A value whose type this is. */
  function SampleOf(s: BsonScalarType): (value: BsonLeaf)
    ensures ScalarOf(value) == s
  {
    match s
    case Double => DoubleValue
    case Decimal => Decimal128
    case Int => Int32
    case Long => Int64
    case String => StringValue
    case Date => DateTime
    case Timestamp => TimestampValue
    case UUID => Binary(true)
    case BinData => Binary(false)
    case ObjectId => ObjectIdValue
    case Bool => BooleanValue
    case Null => NullValue
    case Regex => RegularExpression
    case Javascript => JavaScriptCode
    case JavascriptWithScope => JavaScriptCodeWithScope
    case MinKey => MinKeyValue
    case MaxKey => MaxKeyValue
    case Undefined => UndefinedValue
    case DbPointer => DbPointerValue
    case Symbol => SymbolValue
  }
}
