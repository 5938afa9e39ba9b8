/** Type annotations: printing types in GraphQL style, and parsing them back. */
module TypeAnnotations {
  import opened Options
  import opened BsonScalars
  import opened SchemaTypes

  // ----- names -----

  function BsonName(s: BsonScalarType): (name: string)
    ensures |name| == NameLength(s) > 0
  {
    match s
    case Double => "double"
    case Decimal => "decimal"
    case Int => "int"
    case Long => "long"
    case String => "string"
    case Date => "date"
    case Timestamp => "timestamp"
    case UUID => "uuid"
    case BinData => "binData"
    case ObjectId => "objectId"
    case Bool => "bool"
    case Null => "null"
    case Regex => "regex"
    case Javascript => "javascript"
    case JavascriptWithScope => "javascriptWithScope"
    case MinKey => "minKey"
    case MaxKey => "maxKey"
    case Undefined => "undefined"
    case DbPointer => "dbPointer"
    case Symbol => "symbol"
  }

  function NameLength(s: BsonScalarType): nat {
    match s
    case JavascriptWithScope => 19
    case Javascript => 10
    case Timestamp => 9
    case Undefined => 9
    case DbPointer => 9
    case ObjectId => 8
    case Decimal => 7
    case BinData => 7
    case Double => 6
    case String => 6
    case MinKey => 6
    case MaxKey => 6
    case Symbol => 6
    case Regex => 5
    case Int => 3
    case _ => 4
  }

  lemma BsonNameLetters(s: BsonScalarType)
    ensures BsonName(s)[0] !in "ep" && forall i :: 0 <= i < |BsonName(s)| ==> IsLetter(BsonName(s)[i])
  {
  }

  lemma BsonNamesDistinct(a: BsonScalarType, b: BsonScalarType)
    requires BsonName(a) == BsonName(b)
    ensures a == b
  {
  }

  /** All scalar types, those with longer names first, and otherwise in the order of declaration. */
  const SCALARS_BY_LENGTH: seq<BsonScalarType> := [
    JavascriptWithScope, Javascript, Timestamp, Undefined, DbPointer, ObjectId, Decimal,
    BinData, Double, String, MinKey, MaxKey, Symbol, Regex,
    Long, Date, UUID, Bool, Null, Int]

  lemma ScalarsComplete(s: BsonScalarType)
    ensures s in SCALARS_BY_LENGTH
  {
    match s
    case Double => assert SCALARS_BY_LENGTH[8] == s;
    case Decimal => assert SCALARS_BY_LENGTH[6] == s;
    case Int => assert SCALARS_BY_LENGTH[19] == s;
    case Long => assert SCALARS_BY_LENGTH[14] == s;
    case String => assert SCALARS_BY_LENGTH[9] == s;
    case Date => assert SCALARS_BY_LENGTH[15] == s;
    case Timestamp => assert SCALARS_BY_LENGTH[2] == s;
    case UUID => assert SCALARS_BY_LENGTH[16] == s;
    case BinData => assert SCALARS_BY_LENGTH[7] == s;
    case ObjectId => assert SCALARS_BY_LENGTH[5] == s;
    case Bool => assert SCALARS_BY_LENGTH[17] == s;
    case Null => assert SCALARS_BY_LENGTH[18] == s;
    case Regex => assert SCALARS_BY_LENGTH[13] == s;
    case Javascript => assert SCALARS_BY_LENGTH[1] == s;
    case JavascriptWithScope => assert SCALARS_BY_LENGTH[0] == s;
    case MinKey => assert SCALARS_BY_LENGTH[10] == s;
    case MaxKey => assert SCALARS_BY_LENGTH[11] == s;
    case Undefined => assert SCALARS_BY_LENGTH[3] == s;
    case DbPointer => assert SCALARS_BY_LENGTH[4] == s;
    case Symbol => assert SCALARS_BY_LENGTH[12] == s;
  }

  predicate LongestFirst(order: seq<BsonScalarType>) {
    forall i :: 0 <= i < |order| - 1 ==> NameLength(order[i]) >= NameLength(order[i + 1])
  }

  lemma {:induction false} LongestFirstHead(order: seq<BsonScalarType>, s: BsonScalarType)
    requires LongestFirst(order) && s in order
    ensures NameLength(order[0]) >= NameLength(s)
  {
    if order[0] != s {
      LongestFirstTail(order);
      LongestFirstHead(order[1..], s);
      assert order[1..][0] == order[1];
    }
  }

  lemma LongestFirstTail(order: seq<BsonScalarType>)
    requires LongestFirst(order) && order != []
    ensures LongestFirst(order[1..])
  {
    forall i | 0 <= i < |order[1..]| - 1
      ensures NameLength(order[1..][i]) >= NameLength(order[1..][i + 1])
    {
      assert NameLength(order[i + 1]) >= NameLength(order[i + 1 + 1]);
    }
  }

  lemma ScalarsLongestFirst()
    ensures LongestFirst(SCALARS_BY_LENGTH)
  {
    var order := SCALARS_BY_LENGTH;
    assert NameLength(order[0]) == 19 && NameLength(order[1]) == 10;
    assert NameLength(order[2]) == NameLength(order[3]) == NameLength(order[4]) == 9;
    assert NameLength(order[5]) == 8 && NameLength(order[6]) == NameLength(order[7]) == 7;
    assert NameLength(order[8]) == NameLength(order[9]) == NameLength(order[10]) == NameLength(order[11]) == 6;
    assert NameLength(order[12]) == 6;
    assert NameLength(order[13]) == 5 && NameLength(order[19]) == 3;
    assert NameLength(order[14]) == NameLength(order[15]) == NameLength(order[16]) == NameLength(order[17]) == 4;
    assert NameLength(order[18]) == 4;
  }

  predicate IsLetter(c: char) {
    'a' <= c <= 'z' || 'A' <= c <= 'Z'
  }

  predicate StartsName(c: char) {
    IsLetter(c) || c == '_'
  }

  predicate IsNameChar(c: char) {
    StartsName(c) || '0' <= c <= '9'
  }

  predicate IsIdentifier(name: string) {
    name != "" && StartsName(name[0]) && forall i :: 0 <= i < |name| ==> IsNameChar(name[i])
  }

  /** Object type names are identifiers. */
  predicate Identifiers(t: Type) {
    match t
    case Object(name) => IsIdentifier(name)
    case Predicate(name) => IsIdentifier(name)
    case ArrayOf(element) => Identifiers(element)
    case Nullable(inner) => Identifiers(inner)
    case _ => true
  }

  lemma {:induction false} NormalizeIdentifiers(t: Type)
    ensures Identifiers(Normalize(t)) <==> Identifiers(t)
  {
    match t
    case ArrayOf(element) => NormalizeIdentifiers(element);
    case Nullable(inner) => NormalizeIdentifiers(inner);
    case _ =>
  }

  // ----- printing -----

  /** Types that do not admit null carry the suffix `!`. */
  function Print(t: Type): string
    decreases t, 1
  {
    if t.Nullable? then PrintCore(t.inner) else PrintCore(t) + "!"
  }

  function PrintCore(t: Type): string
    decreases t, 0
  {
    match t
    case ExtendedJSON => "extendedJSON"
    case Scalar(s) => BsonName(s)
    case Object(name) => name
    case ArrayOf(element) => "[" + Print(element) + "]"
    case Nullable(inner) => Print(inner)
    case Predicate(name) => "predicate<" + name + ">"
  }

  // ----- parsing -----

  /** An error lets an alternative be tried; a failure ends parsing. */
  datatype ParseResult<+T> = Parsed(value: T, rest: string) | Error | Failure

  predicate IsSpace(c: char) {
    c == ' ' || c == '\t' || c == '\r' || c == '\n'
  }

  function SkipSpace(s: string): (rest: string)
    ensures |rest| <= |s|
  {
    if s != "" && IsSpace(s[0]) then SkipSpace(s[1..]) else s
  }

  predicate StartsWith(s: string, tag: string) {
    tag <= s
  }

  function NameRun(s: string): (n: nat)
    ensures n <= |s| && (forall i :: 0 <= i < n ==> IsNameChar(s[i])) && (n == |s| || !IsNameChar(s[n]))
  {
    if s == "" || !IsNameChar(s[0]) then 0 else 1 + NameRun(s[1..])
  }

  function ObjectTypeName(s: string): (r: ParseResult<string>)
    ensures r.Parsed? ==> IsIdentifier(r.value) && s == r.value + r.rest
  {
    if s != "" && StartsName(s[0]) then Parsed(s[..NameRun(s)], s[NameRun(s)..]) else Error
  }

  function ExtendedJsonAnnotation(s: string): ParseResult<Type> {
    if StartsWith(s, "extendedJSON") then Parsed(ExtendedJSON, s[|"extendedJSON"|..]) else Error
  }

  /** The first scalar type in the order whose name the input starts with. */
  function FirstScalar(order: seq<BsonScalarType>, s: string): (found: Option<BsonScalarType>)
    ensures found.Some? ==> StartsWith(s, BsonName(found.value))
  {
    if order == [] then None
    else if StartsWith(s, BsonName(order[0])) then Some(order[0])
    else FirstScalar(order[1..], s)
  }

  function ScalarAnnotation(s: string): ParseResult<Type> {
    match FirstScalar(SCALARS_BY_LENGTH, s)
    case Some(scalar) => Parsed(Nullable(Scalar(scalar)), s[|BsonName(scalar)|..])
    case None => Error
  }

  function PredicateAnnotation(s: string): (r: ParseResult<Type>)
    ensures r.Parsed? ==> Identifiers(r.value)
  {
    if !StartsWith(s, "predicate") then Error
    else
      var open := SkipSpace(s[|"predicate"|..]);
      if !StartsWith(open, "<") then Error
      else
        match ObjectTypeName(SkipSpace(open[1..]))
        case Parsed(name, rest) =>
          var close := SkipSpace(rest);
          if StartsWith(close, ">") then Parsed(Nullable(Predicate(name)), close[1..]) else Error
        case _ => Failure
  }

  function ObjectAnnotation(s: string): ParseResult<Type> {
    match ObjectTypeName(s)
    case Parsed(name, rest) => Parsed(Nullable(Object(name)), rest)
    case _ => Error
  }

  function ArrayOfAnnotation(s: string): (r: ParseResult<Type>)
    ensures r.Parsed? ==> Identifiers(r.value)
    decreases |s|, 0
  {
    if !StartsWith(s, "[") then Error
    else
      match TypeExpression(SkipSpace(s[1..]))
      case Parsed(element, rest) =>
        var close := SkipSpace(rest);
        if StartsWith(close, "]") then Parsed(Nullable(ArrayOf(element)), close[1..]) else Error
      case _ => Failure
  }

  /** The first alternative that does not end in an error. */
  function Alternatives(s: string): (r: ParseResult<Type>)
    ensures r.Parsed? ==> Identifiers(r.value)
    decreases |s|, 1
  {
    if !ExtendedJsonAnnotation(s).Error? then ExtendedJsonAnnotation(s)
    else if !ScalarAnnotation(s).Error? then ScalarAnnotation(s)
    else if !PredicateAnnotation(s).Error? then PredicateAnnotation(s)
    else if !ObjectAnnotation(s).Error? then ObjectAnnotation(s)
    else ArrayOfAnnotation(s)
  }

  function NullabilitySuffix(t: Type, rest: string): (r: ParseResult<Type>)
    ensures r.Parsed? && Normal(r.value)
  {
    NormalizeNormal(t);
    var suffix := SkipSpace(rest);
    if StartsWith(suffix, "!") then
      var normal := Normalize(t);
      Parsed(if normal.Nullable? then normal.inner else normal, suffix[1..])
    else Parsed(Normalize(t), rest)
  }

  /** Annotations parse to normal types whose object type names are identifiers. */
  function TypeExpression(s: string): (r: ParseResult<Type>)
    ensures r.Parsed? ==> Normal(r.value) && Identifiers(r.value)
    decreases |s|, 2
  {
    match Alternatives(s)
    case Parsed(t, rest) =>
      NormalizeIdentifiers(t);
      NullabilitySuffix(t, rest)
    case other => other
  }

  // ----- what round trips -----

  predicate HasKeywordPrefix(name: string) {
    StartsWith(name, "extendedJSON") || exists s: BsonScalarType :: StartsWith(name, BsonName(s))
  }

  /** No object type is named like a scalar type or extended JSON, or starts like one. */
  predicate KeywordFree(t: Type) {
    match t
    case Object(name) => !HasKeywordPrefix(name)
    case ArrayOf(element) => KeywordFree(element)
    case Nullable(inner) => KeywordFree(inner)
    case _ => true
  }

  /** What may follow a name for it to be read completely. */
  predicate EndsName(rest: string) {
    rest == "" || (!IsNameChar(rest[0]) && !StartsWith(SkipSpace(rest), "<"))
  }

  /** What may follow an annotation: nothing that could belong to it. */
  predicate EndsType(rest: string) {
    EndsName(rest) && !StartsWith(SkipSpace(rest), "!")
  }

  lemma PrefixOfName(tag: string, name: string, rest: string)
    requires forall i :: 0 <= i < |tag| ==> IsNameChar(tag[i])
    requires rest == "" || !IsNameChar(rest[0])
    ensures StartsWith(name + rest, tag) <==> StartsWith(name, tag)
  {
    assert StartsWith(name, tag) ==> StartsWith(name + rest, tag);
    if |name| < |tag| {
      assert rest != "" ==> (name + rest)[|name|] == rest[0] != tag[|name|];
    }
  }

  /** Trying longer names first finds the scalar type that was printed. */
  lemma {:induction false} FirstScalarExact(order: seq<BsonScalarType>, s: BsonScalarType, rest: string)
    requires LongestFirst(order) && s in order
    requires rest == "" || !IsNameChar(rest[0])
    ensures FirstScalar(order, BsonName(s) + rest) == Some(s)
  {
    var first := order[0];
    BsonNameLetters(first);
    PrefixOfName(BsonName(first), BsonName(s), rest);
    LongestFirstHead(order, s);
    if StartsWith(BsonName(s), BsonName(first)) {
      assert |BsonName(first)| == |BsonName(s)|;
      BsonNamesDistinct(first, s);
    } else {
      LongestFirstTail(order);
      FirstScalarExact(order[1..], s, rest);
    }
  }

  lemma {:induction false} FirstScalarNone(order: seq<BsonScalarType>, input: string)
    ensures FirstScalar(order, input) == None <==> forall s :: s in order ==> !StartsWith(input, BsonName(s))
  {
    if order != [] {
      FirstScalarNone(order[1..], input);
    }
  }

  lemma ScalarParses(s: BsonScalarType, rest: string)
    requires EndsName(rest)
    ensures Alternatives(BsonName(s) + rest) == Parsed(Nullable(Scalar(s)), rest)
  {
    assert FirstScalar(SCALARS_BY_LENGTH, BsonName(s) + rest) == Some(s) by {
      ScalarsComplete(s);
      ScalarsLongestFirst();
      FirstScalarExact(SCALARS_BY_LENGTH, s, rest);
    }
    BsonNameLetters(s);
    assert (BsonName(s) + rest)[0] == BsonName(s)[0] != 'e';
  }

  lemma NoScalar(input: string)
    requires input != "" && (input[0] in "ep" || !IsLetter(input[0]))
    ensures ScalarAnnotation(input).Error?
  {
    FirstScalarNone(SCALARS_BY_LENGTH, input);
    forall s | s in SCALARS_BY_LENGTH ensures !StartsWith(input, BsonName(s)) {
      BsonNameLetters(s);
    }
  }

  lemma NameRunExact(name: string, rest: string)
    requires IsIdentifier(name) && (rest == "" || !IsNameChar(rest[0]))
    ensures ObjectTypeName(name + rest) == Parsed(name, rest)
  {
    var s := name + rest;
    var n := NameRun(s);
    assert forall i :: 0 <= i < |name| ==> s[i] == name[i];
    assert |rest| > 0 ==> s[|name|] == rest[0];
    assert n == |name|;
  }

  lemma PredicateParses(name: string, rest: string)
    requires IsIdentifier(name)
    ensures PredicateAnnotation("predicate" + ("<" + (name + (">" + rest)))) == Parsed(Nullable(Predicate(name)), rest)
  {
    var close := ">" + rest;
    var inner := name + close;
    var open := "<" + inner;
    var s := "predicate" + open;
    assert s[|"predicate"|..] == open;
    assert SkipSpace(open) == open && open[1..] == inner;
    assert inner[0] == name[0] && SkipSpace(inner) == inner;
    NameRunExact(name, close);
    assert SkipSpace(close) == close && close[1..] == rest;
  }

  lemma PredicateAlternative(s: string)
    requires StartsWith(s, "predicate") && PredicateAnnotation(s).Parsed?
    ensures Alternatives(s) == PredicateAnnotation(s)
  {
    assert s[0] == "predicate"[0] == 'p';
    NoScalar(s);
  }

  lemma ObjectParses(name: string, rest: string)
    requires IsIdentifier(name) && EndsName(rest) && !HasKeywordPrefix(name)
    ensures Alternatives(name + rest) == Parsed(Nullable(Object(name)), rest)
  {
    var s := name + rest;
    PrefixOfName("extendedJSON", name, rest);
    forall scalar: BsonScalarType ensures !StartsWith(s, BsonName(scalar)) {
      BsonNameLetters(scalar);
      PrefixOfName(BsonName(scalar), name, rest);
    }
    FirstScalarNone(SCALARS_BY_LENGTH, s);
    NoPredicate(name, rest);
    NameRunExact(name, rest);
  }

  lemma NoPredicate(name: string, rest: string)
    requires IsIdentifier(name) && EndsName(rest)
    ensures PredicateAnnotation(name + rest).Error?
  {
    PrefixOfName("predicate", name, rest);
    if StartsWith(name, "predicate") {
      var tail := name[|"predicate"|..];
      assert (name + rest)[|"predicate"|..] == tail + rest;
      if tail == "" {
        assert tail + rest == rest;
      } else {
        assert (tail + rest)[0] == tail[0] == name[|"predicate"|];
        assert SkipSpace(tail + rest) == tail + rest;
      }
    }
  }

  /** A name that starts like a keyword is read as the keyword. */
  lemma KeywordParses(name: string, rest: string)
    requires HasKeywordPrefix(name)
    ensures var r := Alternatives(name + rest);
      r.Parsed? && (r.value == ExtendedJSON || (r.value.Nullable? && r.value.inner.Scalar?))
  {
    var s := name + rest;
    if !StartsWith(s, "extendedJSON") {
      var scalar: BsonScalarType :| StartsWith(name, BsonName(scalar));
      assert StartsWith(s, BsonName(scalar));
      ScalarsComplete(scalar);
      FirstScalarNone(SCALARS_BY_LENGTH, s);
    }
  }

  lemma {:induction false} PrintStart(t: Type)
    requires Identifiers(t)
    ensures Print(t) != "" && !IsSpace(Print(t)[0])
    ensures PrintCore(t) != "" && !IsSpace(PrintCore(t)[0])
  {
    if t.Nullable? {
      PrintStart(t.inner);
    }
  }

  /** Dropping or keeping a nullable layer can turn the value into the core. */
  predicate Becomes(value: Type, core: Type) {
    Normalize(value) == core || Normalize(value) == Nullable(core)
  }

  /** The parse of a printed core is the core and the rest, exactly if no object name is a keyword. */
  predicate ComesBack(t: Type, rest: string, r: ParseResult<Type>) {
    if KeywordFree(t) then r == Parsed(if t.ExtendedJSON? then t else Nullable(t), rest)
    else !(r.Parsed? && Becomes(r.value, t))
  }

  lemma {:induction false} CoreRoundTrip(t: Type, rest: string)
    requires !t.Nullable? && Normal(t) && Identifiers(t) && EndsName(rest)
    ensures ComesBack(t, rest, Alternatives(PrintCore(t) + rest))
    decreases t, 0
  {
    match t
    case ExtendedJSON =>
      assert (PrintCore(t) + rest)[|"extendedJSON"|..] == rest;
    case Scalar(s) => ScalarParses(s, rest);
    case Predicate(name) => PredicateRoundTrip(name, rest);
    case Object(name) => ObjectRoundTrip(name, rest);
    case ArrayOf(element) =>
      var close := "]" + rest;
      var inner := Print(element) + close;
      assert PrintCore(t) + rest == "[" + inner;
      assert SkipSpace(close) == close;
      PrintStart(element);
      RoundTrip(element, close);
      ArrayComesBack(element, inner, rest);
  }

  lemma PredicateRoundTrip(name: string, rest: string)
    requires IsIdentifier(name)
    ensures ComesBack(Predicate(name), rest, Alternatives(PrintCore(Predicate(name)) + rest))
  {
    var s := "predicate" + ("<" + (name + (">" + rest)));
    assert PrintCore(Predicate(name)) + rest == s;
    PredicateParses(name, rest);
    PredicateAlternative(s);
  }

  lemma ObjectRoundTrip(name: string, rest: string)
    requires IsIdentifier(name) && EndsName(rest)
    ensures ComesBack(Object(name), rest, Alternatives(PrintCore(Object(name)) + rest))
  {
    if HasKeywordPrefix(name) {
      KeywordParses(name, rest);
    } else {
      ObjectParses(name, rest);
    }
  }

  lemma ArrayComesBack(element: Type, inner: string, rest: string)
    requires inner != "" && !IsSpace(inner[0]) && Normal(element)
    requires TypeExpression(inner) == Parsed(element, "]" + rest) <==> KeywordFree(element)
    requires !KeywordFree(element) ==> !(TypeExpression(inner).Parsed? && TypeExpression(inner).value == element)
    ensures ComesBack(ArrayOf(element), rest, Alternatives("[" + inner))
  {
    ArrayAlternative(inner);
    var close := "]" + rest;
    assert SkipSpace(close) == close && close[1..] == rest;
    var e := TypeExpression(inner);
    if e.Parsed? {
      NormalizeNormal(e.value);
      NormalizeNullable(ArrayOf(e.value));
    }
  }

  lemma ArrayAlternative(inner: string)
    requires inner != "" && !IsSpace(inner[0])
    ensures Alternatives("[" + inner) ==
      match TypeExpression(inner)
      case Parsed(element, rest) =>
        if StartsWith(SkipSpace(rest), "]") then Parsed(Nullable(ArrayOf(element)), SkipSpace(rest)[1..]) else Error
      case _ => Failure
  {
    var s := "[" + inner;
    OnlyArray(s);
    assert s[1..] == inner && SkipSpace(inner) == inner;
  }

  lemma OnlyArray(s: string)
    requires s != "" && s[0] == '['
    ensures Alternatives(s) == ArrayOfAnnotation(s)
  {
    NoScalar(s);
    assert "extendedJSON"[0] == 'e' && "predicate"[0] == 'p';
  }

  lemma SuffixExact(t: Type, core: Type, value: Type, rest: string, tail: string)
    requires Normal(t) && EndsType(rest) && !core.Nullable?
    requires if t.Nullable? then t.inner == core && tail == rest else t == core && tail == "!" + rest
    ensures value == (if core.ExtendedJSON? then core else Nullable(core)) ==>
      NullabilitySuffix(value, tail) == Parsed(t, rest)
    ensures NullabilitySuffix(value, tail).value == t ==> Becomes(value, core)
  {
    NormalizeNormal(value);
    NormalizeNormal(core);
    NormalizeNullable(core);
    assert !t.Nullable? ==> SkipSpace(tail) == tail && tail[1..] == rest;
  }

  lemma {:induction false} RoundTrip(t: Type, rest: string)
    requires Normal(t) && Identifiers(t) && EndsType(rest)
    ensures TypeExpression(Print(t) + rest) == Parsed(t, rest) <==> KeywordFree(t)
    ensures !KeywordFree(t) ==> !(TypeExpression(Print(t) + rest).Parsed? && TypeExpression(Print(t) + rest).value == t)
    decreases t, 1
  {
    var core := if t.Nullable? then t.inner else t;
    var tail := if t.Nullable? then rest else "!" + rest;
    assert Print(t) + rest == PrintCore(core) + tail;
    CoreRoundTrip(core, tail);
    var r := Alternatives(PrintCore(core) + tail);
    if r.Parsed? {
      SuffixExact(t, core, r.value, rest, tail);
      assert r.rest == tail || !KeywordFree(t);
    }
  }

  /**
   Parsing what was printed gives the type back, and leaves what follows it, exactly if the type is
   normal, its object type names are identifiers, and none that is used as an object starts with a
   scalar type's name or with `extendedJSON`.
   */
  lemma AnnotationRoundTrip(t: Type, rest: string)
    requires EndsType(rest)
    ensures TypeExpression(Print(t) + rest) == Parsed(t, rest) <==> Normal(t) && Identifiers(t) && KeywordFree(t)
  {
    if Normal(t) && Identifiers(t) {
      RoundTrip(t, rest);
    }
  }

  /** An object type whose name starts like a scalar type's does not come back. */
  lemma IntervalDoesNotParse()
    ensures Print(Nullable(Object("interval"))) == "interval"
    ensures TypeExpression("interval") != Parsed(Nullable(Object("interval")), "")
  {
    assert StartsWith("interval", BsonName(Int));
    RoundTrip(Nullable(Object("interval")), "");
    assert "interval" + "" == "interval";
  }
}
