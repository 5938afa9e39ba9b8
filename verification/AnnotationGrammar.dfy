/**
 The grammar of type annotations, told from the text alone: the words for scalar types, names, brackets,
 predicates, the suffix `!`, and where blanks may stand. The parser accepts exactly this language.
 */
module AnnotationGrammar {
  import opened Text
  import opened BsonScalars
  import opened SchemaTypes
  import opened TypeAnnotations

  // ----- words, names and blanks -----

  predicate ScalarWord(text: string, s: BsonScalarType) {
    match s
    case Double => text == "double"
    case Decimal => text == "decimal"
    case Int => text == "int"
    case Long => text == "long"
    case String => text == "string"
    case Date => text == "date"
    case Timestamp => text == "timestamp"
    case UUID => text == "uuid"
    case BinData => text == "binData"
    case ObjectId => text == "objectId"
    case Bool => text == "bool"
    case Null => text == "null"
    case Regex => text == "regex"
    case Javascript => text == "javascript"
    case JavascriptWithScope => text == "javascriptWithScope"
    case MinKey => text == "minKey"
    case MaxKey => text == "maxKey"
    case Undefined => text == "undefined"
    case DbPointer => text == "dbPointer"
    case Symbol => text == "symbol"
  }

  predicate Letter(c: char) {
    'a' <= c <= 'z' || 'A' <= c <= 'Z' || c == '_'
  }

  predicate Name(text: string) {
    && text != "" && Letter(text[0])
    && forall i :: 0 <= i < |text| ==> Letter(text[i]) || '0' <= text[i] <= '9'
  }

  predicate Blank(text: string) {
    forall i :: 0 <= i < |text| ==> text[i] in {' ', '\t', '\r', '\n'}
  }

  /** The text starts with the word for a scalar type or for extended JSON. */
  ghost predicate StartsWithWord(text: string) {
    "extendedJSON" <= text || exists word: string, s: BsonScalarType :: ScalarWord(word, s) && word <= text
  }

  // ----- the grammar -----

  ghost predicate PredicateText(text: string, name: string) {
    && Name(name)
    && exists a, b, c ::
         Blank(a) && Blank(b) && Blank(c) && text == "predicate" + (a + ("<" + (b + (name + (c + ">")))))
  }

  /** The text, without a suffix, denotes the type. */
  ghost predicate DenotesCore(text: string, t: Type)
    decreases |text|, 0
  {
    || (text == "extendedJSON" && t == ExtendedJSON)
    || (t.Nullable? &&
        match t.inner
        case Scalar(s) => ScalarWord(text, s)
        case Object(name) => text == name && Name(name) && !StartsWithWord(name)
        case Predicate(name) => PredicateText(text, name)
        case ArrayOf(element) => exists i, j :: 1 <= i <= j < |text| && DenotesArray(text, i, j, element)
        case _ => false)
  }

  /** Between brackets and blanks, the text from `i` to `j` denotes the type of the elements. */
  ghost predicate DenotesArray(text: string, i: nat, j: nat, element: Type)
    requires 1 <= i <= j < |text|
    decreases |text|, 0, 0
  {
    && text[0] == '[' && text[|text| - 1] == ']'
    && Blank(text[1..i]) && Blank(text[j..|text| - 1]) && Denotes(text[i..j], element)
  }

  /** The text denotes the type. Types admit null, unless they have the suffix `!`. */
  ghost predicate Denotes(text: string, t: Type)
    decreases |text|, 1
  {
    || (exists core :: DenotesCore(text, core) && t == Normalize(core))
    || (exists k, core :: 0 <= k < |text| && text[|text| - 1] == '!' && Blank(text[k..|text| - 1])
          && DenotesCore(text[..k], core) && t == Required(Normalize(core)))
  }

  function Required(t: Type): Type {
    if t.Nullable? then t.inner else t
  }

  // ----- characters -----

  lemma SameNames(text: string)
    ensures Name(text) <==> IsIdentifier(text)
  {
  }

  lemma BlankSpaces(text: string)
    ensures Blank(text) <==> forall i :: 0 <= i < |text| ==> IsSpace(text[i])
  {
  }

  lemma {:induction false} SkipBlank(blank: string, rest: string)
    requires Blank(blank) && (rest == "" || !IsSpace(rest[0]))
    ensures SkipSpace(blank + rest) == rest
  {
    if blank == "" {
      assert blank + rest == rest;
    } else {
      assert (blank + rest)[1..] == blank[1..] + rest;
      SkipBlank(blank[1..], rest);
    }
  }

  lemma {:induction false} SkippedBlank(s: string) returns (blank: string)
    ensures Blank(blank) && s == blank + SkipSpace(s) && (SkipSpace(s) == "" || !IsSpace(SkipSpace(s)[0]))
  {
    if s != "" && IsSpace(s[0]) {
      var more := SkippedBlank(s[1..]);
      blank := [s[0]] + more;
      assert forall i :: 0 <= i < |blank| ==> blank[i] == if i == 0 then s[0] else more[i - 1];
      Regroup([s[0]], more, SkipSpace(s[1..]));
      assert s == [s[0]] + s[1..];
    } else {
      blank := "";
    }
  }

  lemma WordIsName(word: string, s: BsonScalarType)
    ensures ScalarWord(word, s) <==> word == BsonName(s)
  {
  }

  lemma WordPrefix(text: string)
    ensures StartsWithWord(text) <==> HasKeywordPrefix(text)
  {
    if StartsWithWord(text) && !("extendedJSON" <= text) {
      var word: string, s: BsonScalarType :| ScalarWord(word, s) && word <= text;
      WordIsName(word, s);
    }
    if HasKeywordPrefix(text) && !StartsWith(text, "extendedJSON") {
      var s: BsonScalarType :| StartsWith(text, BsonName(s));
      WordIsName(BsonName(s), s);
    }
  }

  // ----- what is left of the input -----

  predicate Suffix(rest: string, s: string) {
    |rest| <= |s| && s[|s| - |rest|..] == rest
  }

  lemma SuffixTransitive(a: string, b: string, c: string)
    requires Suffix(a, b) && Suffix(b, c)
    ensures Suffix(a, c)
  {
  }

  lemma SkipSuffix(s: string)
    ensures Suffix(SkipSpace(s), s)
  {
    var blank := SkippedBlank(s);
  }

  lemma DropSuffix(s: string, k: nat)
    requires k <= |s|
    ensures Suffix(s[k..], s)
  {
  }

  lemma SuffixParts(rest: string, s: string) returns (text: string)
    requires Suffix(rest, s)
    ensures s == text + rest && |text| == |s| - |rest|
  {
    text := s[..|s| - |rest|];
  }

  lemma {:induction false} TypeSuffix(s: string)
    requires TypeExpression(s).Parsed?
    ensures Suffix(TypeExpression(s).rest, s)
    decreases |s|, 1
  {
    CoreSuffix(s);
    var rest := Alternatives(s).rest;
    var suffix := SkipSpace(rest);
    SkipSuffix(rest);
    if StartsWith(suffix, "!") {
      DropSuffix(suffix, 1);
      SuffixTransitive(suffix[1..], suffix, rest);
      SuffixTransitive(suffix[1..], rest, s);
    }
  }

  lemma {:induction false} CoreSuffix(s: string)
    requires Alternatives(s).Parsed?
    ensures Suffix(Alternatives(s).rest, s)
    decreases |s|, 0
  {
    if !ExtendedJsonAnnotation(s).Error? || !ScalarAnnotation(s).Error? {
    } else if !PredicateAnnotation(s).Error? {
      PredicateSuffix(s);
    } else if ObjectAnnotation(s).Error? {
      ArraySuffix(s);
    }
  }

  lemma PredicateSuffix(s: string)
    requires PredicateAnnotation(s).Parsed?
    ensures Suffix(PredicateAnnotation(s).rest, s)
  {
    var a, b, c := PredicatePieces(s);
  }

  /** The pieces of what is read as a predicate type. */
  lemma PredicatePieces(s: string) returns (a: string, b: string, c: string)
    requires PredicateAnnotation(s).Parsed?
    ensures var r := PredicateAnnotation(s);
      && r.value.Nullable? && r.value.inner.Predicate?
      && var name := r.value.inner.objectTypeName;
      && Blank(a) && Blank(b) && Blank(c) && IsIdentifier(name)
      && s == ("predicate" + (a + ("<" + (b + (name + (c + ">")))))) + r.rest
  {
    var r := PredicateAnnotation(s);
    var tail := s[|"predicate"|..];
    a := SkippedBlank(tail);
    var open := SkipSpace(tail);
    b := SkippedBlank(open[1..]);
    var inner := SkipSpace(open[1..]);
    var name := r.value.inner.objectTypeName;
    var rest := ObjectTypeName(inner).rest;
    c := SkippedBlank(rest);
    var close := SkipSpace(rest);
    assert s == "predicate" + tail && open == "<" + open[1..] && close == ">" + r.rest && inner == name + rest;
    RegroupPredicate("predicate", a, "<", b, name, c, ">", r.rest);
  }

  lemma {:induction false} ArraySuffix(s: string)
    requires ArrayOfAnnotation(s).Parsed?
    ensures Suffix(ArrayOfAnnotation(s).rest, s)
    decreases |s|, 0, 0
  {
    var inner := SkipSpace(s[1..]);
    TypeSuffix(inner);
    var rest := TypeExpression(inner).rest;
    var close := SkipSpace(rest);
    SkipSuffix(s[1..]);
    SkipSuffix(rest);
    DropSuffix(s, 1);
    DropSuffix(close, 1);
    SuffixTransitive(close[1..], close, rest);
    SuffixTransitive(close[1..], rest, inner);
    SuffixTransitive(close[1..], inner, s[1..]);
    SuffixTransitive(close[1..], s[1..], s);
  }

  // ----- regrouping of text -----

  lemma Cancel(a: string, b: string, rest: string)
    requires a + rest == b + rest
    ensures a == b
  {
    assert |a| == |b| && (a + rest)[..|a|] == a && (b + rest)[..|b|] == b;
  }

  lemma RegroupPredicate(p: string, a: string, l: string, b: string, n: string, c: string, g: string, rest: string)
    ensures (p + (a + (l + (b + (n + (c + g)))))) + rest == p + (a + (l + (b + (n + (c + (g + rest))))))
  {
    Regroup(c, g, rest);
    Regroup(n, c + g, rest);
    Regroup(b, n + (c + g), rest);
    Regroup(l, b + (n + (c + g)), rest);
    Regroup(a, l + (b + (n + (c + g))), rest);
    Regroup(p, a + (l + (b + (n + (c + g)))), rest);
  }

  lemma RegroupArray(l: string, a: string, inner: string, b: string, r: string, rest: string)
    ensures (l + (a + (inner + (b + r)))) + rest == l + (a + (inner + (b + (r + rest))))
  {
    Regroup(b, r, rest);
    Regroup(inner, b + r, rest);
    Regroup(a, inner + (b + r), rest);
    Regroup(l, a + (inner + (b + r)), rest);
  }

  lemma ArrayPieces(text: string, i: nat, j: nat)
    requires 1 <= i <= j < |text| && text[0] == '[' && text[|text| - 1] == ']'
    ensures text == "[" + (text[1..i] + (text[i..j] + (text[j..|text| - 1] + "]")))
  {
    assert text[j..] == text[j..|text| - 1] + "]";
    assert text[i..] == text[i..j] + text[j..];
    assert text[1..] == text[1..i] + text[i..];
  }

  lemma ArrayIndices(a: string, inner: string, b: string, text: string)
    requires text == "[" + (a + (inner + (b + "]")))
    ensures var i, j := 1 + |a|, 1 + |a| + |inner|;
      && j < |text| && text[0] == '[' && text[|text| - 1] == ']'
      && text[1..i] == a && text[i..j] == inner && text[j..|text| - 1] == b
  {
    var tail := b + "]";
    assert text[1..] == a + (inner + tail);
    assert text[1 + |a|..] == inner + tail;
    assert text[1 + |a| + |inner|..] == tail;
  }

  lemma SuffixedPieces(text: string, k: nat, rest: string)
    requires k < |text| && text[|text| - 1] == '!'
    ensures text + rest == text[..k] + (text[k..|text| - 1] + ("!" + rest))
  {
    assert text == text[..k] + (text[k..|text| - 1] + "!");
    Regroup(text[k..|text| - 1], "!", rest);
    Regroup(text[..k], text[k..|text| - 1] + "!", rest);
  }

  /** What follows a type with the suffix `!` ends the part before it. */
  lemma SuffixEnds(blank: string, rest: string)
    requires Blank(blank)
    ensures EndsName(blank + ("!" + rest)) && SkipSpace(blank + ("!" + rest)) == "!" + rest
  {
    SkipBlank(blank, "!" + rest);
    assert (blank + ("!" + rest))[0] == if blank == "" then '!' else blank[0];
  }

  // ----- the parser accepts what the grammar says -----

  lemma PredicateRead(a: string, b: string, name: string, c: string, rest: string)
    requires Blank(a) && Blank(b) && Blank(c) && IsIdentifier(name)
    ensures Alternatives("predicate" + (a + ("<" + (b + (name + (c + (">" + rest)))))))
         == Parsed(Nullable(Predicate(name)), rest)
  {
    var close := ">" + rest;
    var inner := name + (c + close);
    var open := "<" + (b + inner);
    var s := "predicate" + (a + open);
    assert s[|"predicate"|..] == a + open;
    assert open[1..] == b + inner && close[1..] == rest && inner[0] == name[0];
    SkipBlank(a, open);
    SkipBlank(b, inner);
    NameRead(name, c, close);
    SkipBlank(c, close);
    PredicateAlternative(s);
  }

  lemma NameRead(name: string, c: string, close: string)
    requires IsIdentifier(name) && Blank(c) && close != "" && close[0] == '>'
    ensures ObjectTypeName(name + (c + close)) == Parsed(name, c + close)
  {
    assert (c + close)[0] == if c == "" then '>' else c[0];
    NameRunExact(name, c + close);
  }

  /** What follows the elements of an array ends their type. */
  lemma ClosingEnds(blank: string, rest: string)
    requires Blank(blank)
    ensures EndsType(blank + ("]" + rest)) && SkipSpace(blank + ("]" + rest)) == "]" + rest
  {
    SkipBlank(blank, "]" + rest);
    assert (blank + ("]" + rest))[0] == if blank == "" then ']' else blank[0];
  }

  lemma ArrayRead(a: string, inner: string, b: string, element: Type, rest: string)
    requires Blank(a) && Blank(b) && inner != "" && !IsSpace(inner[0])
    requires TypeExpression(inner + (b + ("]" + rest))) == Parsed(element, b + ("]" + rest))
    ensures Alternatives("[" + (a + (inner + (b + ("]" + rest))))) == Parsed(Nullable(ArrayOf(element)), rest)
  {
    var input := inner + (b + ("]" + rest));
    var s := "[" + (a + input);
    ClosingEnds(b, rest);
    assert s[1..] == a + input && input[0] == inner[0] && ("]" + rest)[1..] == rest;
    SkipBlank(a, input);
    OnlyArray(s);
  }

  lemma {:induction false} DenotesStart(text: string, t: Type)
    requires Denotes(text, t)
    ensures text != "" && !IsSpace(text[0])
    decreases |text|, 1
  {
    if core :| DenotesCore(text, core) && t == Normalize(core) {
      CoreStart(text, core);
    } else {
      var k, core :| 0 <= k < |text| && text[|text| - 1] == '!' && Blank(text[k..|text| - 1])
        && DenotesCore(text[..k], core) && t == Required(Normalize(core));
      CoreStart(text[..k], core);
    }
  }

  lemma CoreStart(text: string, t: Type)
    requires DenotesCore(text, t)
    ensures text != "" && !IsSpace(text[0])
  {
    if t.Nullable? && t.inner.Scalar? {
      WordIsName(text, t.inner.scalar);
      BsonNameLetters(t.inner.scalar);
    }
  }

  lemma {:induction false} CoreAccepted(text: string, t: Type, rest: string)
    requires DenotesCore(text, t) && EndsName(rest)
    ensures Alternatives(text + rest) == Parsed(t, rest)
    decreases |text|, 0
  {
    if text == "extendedJSON" && t == ExtendedJSON {
      assert (text + rest)[|"extendedJSON"|..] == rest;
    } else {
      match t.inner
      case Scalar(s) =>
        WordIsName(text, s);
        ScalarParses(s, rest);
      case Object(name) =>
        SameNames(name);
        WordPrefix(name);
        ObjectParses(name, rest);
      case Predicate(name) =>
        var a, b, c :|
          Blank(a) && Blank(b) && Blank(c) && text == "predicate" + (a + ("<" + (b + (name + (c + ">")))));
        SameNames(name);
        RegroupPredicate("predicate", a, "<", b, name, c, ">", rest);
        PredicateRead(a, b, name, c, rest);
      case ArrayOf(element) =>
        var i, j :| 1 <= i <= j < |text| && DenotesArray(text, i, j, element);
        var a, inner, b := text[1..i], text[i..j], text[j..|text| - 1];
        ArrayPieces(text, i, j);
        RegroupArray("[", a, inner, b, "]", rest);
        DenotesStart(inner, element);
        ClosingEnds(b, rest);
        TypeAccepted(inner, element, b + ("]" + rest));
        ArrayRead(a, inner, b, element, rest);
    }
  }

  lemma {:induction false} TypeAccepted(text: string, t: Type, rest: string)
    requires Denotes(text, t) && EndsType(rest)
    ensures TypeExpression(text + rest) == Parsed(t, rest)
    decreases |text|, 1
  {
    if core :| DenotesCore(text, core) && t == Normalize(core) {
      CoreAccepted(text, core, rest);
    } else {
      var k, core :| 0 <= k < |text| && text[|text| - 1] == '!' && Blank(text[k..|text| - 1])
        && DenotesCore(text[..k], core) && t == Required(Normalize(core));
      var blank := text[k..|text| - 1];
      SuffixedPieces(text, k, rest);
      SuffixEnds(blank, rest);
      CoreAccepted(text[..k], core, blank + ("!" + rest));
      assert ("!" + rest)[1..] == rest;
    }
  }

  // ----- and nothing else -----

  lemma {:induction false} CoreDenoted(text: string, t: Type, rest: string)
    requires Alternatives(text + rest) == Parsed(t, rest) && EndsName(rest)
    ensures DenotesCore(text, t)
    decreases |text|, 0
  {
    var s := text + rest;
    if !ExtendedJsonAnnotation(s).Error? {
      assert s == "extendedJSON" + rest;
      Cancel(text, "extendedJSON", rest);
    } else if !ScalarAnnotation(s).Error? {
      ScalarDenoted(text, t, rest);
    } else if !PredicateAnnotation(s).Error? {
      PredicateDenoted(text, t, rest);
    } else if !ObjectAnnotation(s).Error? {
      ObjectDenoted(text, t, rest);
    } else {
      ArrayDenoted(text, t, rest);
    }
  }

  lemma ScalarDenoted(text: string, t: Type, rest: string)
    requires ScalarAnnotation(text + rest) == Parsed(t, rest)
    ensures DenotesCore(text, t)
  {
    var scalar := FirstScalar(SCALARS_BY_LENGTH, text + rest).value;
    assert text + rest == BsonName(scalar) + rest;
    Cancel(text, BsonName(scalar), rest);
    WordIsName(text, scalar);
  }

  lemma PredicateDenoted(text: string, t: Type, rest: string)
    requires PredicateAnnotation(text + rest) == Parsed(t, rest)
    ensures DenotesCore(text, t)
  {
    var a, b, c := PredicatePieces(text + rest);
    var name := t.inner.objectTypeName;
    SameNames(name);
    Cancel(text, "predicate" + (a + ("<" + (b + (name + (c + ">"))))), rest);
    assert PredicateText(text, name);
  }

  lemma ObjectDenoted(text: string, t: Type, rest: string)
    requires ExtendedJsonAnnotation(text + rest).Error? && ScalarAnnotation(text + rest).Error?
    requires ObjectAnnotation(text + rest) == Parsed(t, rest)
    ensures DenotesCore(text, t)
  {
    var s := text + rest;
    var name := ObjectTypeName(s).value;
    assert text == name;
    SameNames(name);
    WordPrefix(name);
    FirstScalarNone(SCALARS_BY_LENGTH, s);
    if HasKeywordPrefix(name) {
      KeywordParses(name, rest);
      if scalar: BsonScalarType :| StartsWith(name, BsonName(scalar)) {
        ScalarsComplete(scalar);
        assert StartsWith(s, BsonName(scalar));
      } else {
        assert StartsWith(s, "extendedJSON");
      }
    }
  }

  /** The pieces of what is read as an array type. */
  lemma ArrayInput(s: string, t: Type, rest: string) returns (a: string, inner: string, b: string)
    requires ArrayOfAnnotation(s) == Parsed(t, rest)
    ensures Blank(a) && Blank(b) && t.Nullable? && t.inner.ArrayOf?
    ensures s == "[" + (a + (inner + (b + ("]" + rest))))
    ensures TypeExpression(inner + (b + ("]" + rest))) == Parsed(t.inner.element, b + ("]" + rest))
  {
    var input := SkipSpace(s[1..]);
    var r := TypeExpression(input);
    TypeSuffix(input);
    inner := SuffixParts(r.rest, input);
    a := SkippedBlank(s[1..]);
    b := SkippedBlank(r.rest);
    assert SkipSpace(r.rest) == "]" + rest;
    assert s == "[" + s[1..] && s[1..] == a + input && input == inner + r.rest && r.rest == b + ("]" + rest);
  }

  lemma {:induction false} ArrayDenoted(text: string, t: Type, rest: string)
    requires ArrayOfAnnotation(text + rest) == Parsed(t, rest)
    ensures DenotesCore(text, t)
    decreases |text|, 0, 0
  {
    var a, inner, b := ArrayInput(text + rest, t, rest);
    RegroupArray("[", a, inner, b, "]", rest);
    Cancel(text, "[" + (a + (inner + (b + "]"))), rest);
    ArrayIndices(a, inner, b, text);
    ClosingEnds(b, rest);
    TypeDenoted(inner, t.inner.element, b + ("]" + rest));
    assert DenotesArray(text, 1 + |a|, 1 + |a| + |inner|, t.inner.element);
  }

  /** What is read before a suffix `!`, and the blanks between them. */
  lemma SuffixInput(text: string, tail: string, rest: string) returns (core: string, blank: string)
    requires Suffix(tail, text + rest) && SkipSpace(tail) == "!" + rest
    ensures Blank(blank) && text + rest == core + tail && tail == blank + ("!" + rest)
    ensures |core| < |text| && text[|text| - 1] == '!' && text[..|core|] == core && text[|core|..|text| - 1] == blank
  {
    core := SuffixParts(tail, text + rest);
    blank := SkippedBlank(tail);
    Regroup(blank, "!", rest);
    Regroup(core, blank + "!", rest);
    Cancel(text, core + (blank + "!"), rest);
  }

  lemma {:induction false} TypeDenoted(text: string, t: Type, rest: string)
    requires TypeExpression(text + rest) == Parsed(t, rest)
    requires EndsType(rest)
    ensures Denotes(text, t)
    decreases |text|, 1
  {
    var r := Alternatives(text + rest);
    CoreSuffix(text + rest);
    if StartsWith(SkipSpace(r.rest), "!") {
      assert SkipSpace(r.rest) == "!" + rest;
      var core, blank := SuffixInput(text, r.rest, rest);
      SuffixEnds(blank, rest);
      CoreDenoted(core, r.value, r.rest);
    } else {
      CoreDenoted(text, r.value, rest);
    }
  }

  /** Annotations parse exactly as the grammar says, whatever follows that could not belong to them. */
  lemma ParsesExactly(text: string, t: Type, rest: string)
    requires EndsType(rest)
    ensures TypeExpression(text + rest) == Parsed(t, rest) <==> Denotes(text, t)
  {
    if Denotes(text, t) { TypeAccepted(text, t, rest); }
    if TypeExpression(text + rest) == Parsed(t, rest) { TypeDenoted(text, t, rest); }
  }
}
