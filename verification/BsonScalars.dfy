/** The BSON scalar types and their supertypes. */
module BsonScalars {
  import opened Options

  datatype BsonScalarType =
    | Double | Decimal | Int | Long
    | String
    | Date | Timestamp
    | UUID | BinData
    | ObjectId | Bool | Null | Regex | Javascript | JavascriptWithScope | MinKey | MaxKey
    | Undefined | DbPointer | Symbol

  predicate IsBinary(s: BsonScalarType) {
    s.BinData? || s.UUID?
  }

  /** One argument order of `CommonSupertype`. */
  function OrderedSupertype(a: BsonScalarType, b: BsonScalarType): Option<BsonScalarType> {
    if a == b then Some(a)
    else if IsBinary(a) && IsBinary(b) then Some(BinData)
    else if a.Double? && b.Int? then Some(Double)
    else None
  }

  function CommonSupertype(a: BsonScalarType, b: BsonScalarType): Option<BsonScalarType> {
    if OrderedSupertype(a, b).Some? then OrderedSupertype(a, b) else OrderedSupertype(b, a)
  }

  predicate IsSupertype(a: BsonScalarType, b: BsonScalarType) {
    CommonSupertype(a, b) == Some(a)
  }

  /** The order on scalars: integers below doubles, UUIDs below binary data. */
  predicate ScalarBelow(a: BsonScalarType, b: BsonScalarType) {
    a == b || (a.Int? && b.Double?) || (a.UUID? && b.BinData?)
  }

  lemma SupertypeIsOrder(a: BsonScalarType, b: BsonScalarType)
    ensures IsSupertype(a, b) <==> ScalarBelow(b, a)
  {
  }

  /** `CommonSupertype` is the least upper bound where there is one. */
  lemma CommonSupertypeLeast(a: BsonScalarType, b: BsonScalarType, c: BsonScalarType)
    ensures match CommonSupertype(a, b)
            case Some(u) => ScalarBelow(u, c) <==> ScalarBelow(a, c) && ScalarBelow(b, c)
            case None => !(ScalarBelow(a, c) && ScalarBelow(b, c))
  {
  }

  /** A scalar value, up to its payload, on which inference does not depend. */
  datatype BsonLeaf =
    | DoubleValue | StringValue | BooleanValue | NullValue | RegularExpression | JavaScriptCode
    | JavaScriptCodeWithScope | Int32 | Int64 | TimestampValue | Binary(uuidSubtype: bool) | ObjectIdValue
    | DateTime | SymbolValue | Decimal128 | UndefinedValue | MaxKeyValue | MinKeyValue | DbPointerValue

  function ScalarOf(value: BsonLeaf): BsonScalarType {
    match value
    case DoubleValue => Double
    case StringValue => String
    case BooleanValue => Bool
    case NullValue => Null
    case RegularExpression => Regex
    case JavaScriptCode => Javascript
    case JavaScriptCodeWithScope => JavascriptWithScope
    case Int32 => Int
    case Int64 => Long
    case TimestampValue => Timestamp
    case Binary(uuidSubtype) => if uuidSubtype then UUID else BinData
    case ObjectIdValue => ObjectId
    case DateTime => Date
    case SymbolValue => Symbol
    case Decimal128 => Decimal
    case UndefinedValue => Undefined
    case MaxKeyValue => MaxKey
    case MinKeyValue => MinKey
    case DbPointerValue => DbPointer
  }
}
