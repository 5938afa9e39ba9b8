/**
 The aggregation expressions that LIKE patterns are translated to. A literal pattern becomes a string
 that evaluates to itself. For any other pattern the emitted chain holds the string `$`, which is no
 valid field path, so it has no value; with quoted constants it would have the value intended.
 */
module LikeExpressions {
  import opened Options
  import opened Text
  import opened Values
  import opened ColumnRefs
  import opened LikePatterns

  // ----- translation -----

  /** A literal pattern, or the expression of any other. */
  datatype Pattern = LiteralPattern(value: string) | DynamicPattern(expr: Bson)

  /** What is searched for, and what replaces it. */
  type Pass = (string, string)

  /** How a constant string is put into an expression. */
  type Embedding = string -> Bson

  function Bare(s: string): Bson {
    BsonString(s)
  }

  function Quoted(s: string): Bson {
    LiteralName(s)
  }

  function ReplaceAllExpression(embed: Embedding, input: Bson, pass: Pass): Bson {
    BsonDocument(map["$replaceAll" := BsonDocument(map[
      "input" := input, "find" := embed(pass.0), "replacement" := embed(pass.1)])])
  }

  /** The first pass is innermost. */
  function ReplaceChain(embed: Embedding, input: Bson, passes: seq<Pass>): Bson
    decreases |passes|
  {
    if passes == [] then input
    else ReplaceChain(embed, ReplaceAllExpression(embed, input, passes[0]), passes[1..])
  }

  method ChainReplaceAll(input: Bson, passes: seq<Pass>) returns (result: Bson)
    ensures result == ReplaceChain(Bare, input, passes)
  {
    result := input;
    for i := 0 to |passes|
      invariant ReplaceChain(Bare, result, passes[i..]) == ReplaceChain(Bare, input, passes)
    {
      assert passes[i..][1..] == passes[i + 1..];
      result := BsonDocument(map["$replaceAll" := BsonDocument(map[
        "input" := result, "find" := BsonString(passes[i].0), "replacement" := BsonString(passes[i].1)])]);
    }
  }

  function Anchored(embed: Embedding, open: string, chain: Bson, close: string): Bson {
    BsonDocument(map["$concat" := BsonArray([embed(open), chain, embed(close)])])
  }

  /** The passes of the run-time translation. */
  function Passes(replacements: seq<Replacement>): (passes: seq<Pass>)
    ensures |passes| == |replacements|
  {
    seq(|replacements|, i requires 0 <= i < |replacements| => ([replacements[i].find], replacements[i].replacement))
  }

  method TranslateLikePattern(pattern: Pattern) returns (expression: Bson)
    ensures expression == match pattern
      case LiteralPattern(value) => BsonString("^" + RegexBody(value) + "$")
      case DynamicPattern(expr) => Anchored(Bare, "^", ReplaceChain(Bare, expr, Passes(Replacements())), "$")
  {
    match pattern
    case LiteralPattern(value) =>
      var regex := SqlLikeToRegex(value);
      expression := BsonString(regex);
    case DynamicPattern(expr) =>
      var escaped := ChainReplaceAll(expr, Passes(Replacements()));
      expression := BsonDocument(map["$concat" := BsonArray([BsonString("^"), escaped, BsonString("$")])]);
  }

  // ----- what the expressions evaluate to -----

  /** The text after the passes. */
  function ReplacedText(text: string, passes: seq<Pass>): string
    decreases |passes|
  {
    if passes == [] then text else ReplacedText(Replaced(text, passes[0].0, passes[0].1), passes[1..])
  }

  lemma ReplaceAllEvaluates(embed: Embedding, input: Bson, pass: Pass, env: Environment)
    ensures Eval(ReplaceAllExpression(embed, input, pass), env)
         == ReplaceAllIn(Eval(input, env), Eval(embed(pass.0), env), Eval(embed(pass.1), env))
  {
    var arguments := map["input" := input, "find" := embed(pass.0), "replacement" := embed(pass.1)];
    assert arguments.Keys == {"input", "find", "replacement"};
    var e := ReplaceAllExpression(embed, input, pass);
    assert e.fields.Keys == {"$replaceAll"};
  }

  lemma AnchoredEvaluates(embed: Embedding, open: string, chain: Bson, close: string, env: Environment)
    ensures Eval(Anchored(embed, open, chain, close), env)
         == ConcatValues(Eval(embed(open), env),
                         ConcatValues(Eval(chain, env), ConcatValues(Eval(embed(close), env), Some(Str("")))))
  {
    var es := [embed(open), chain, embed(close)];
    assert Anchored(embed, open, chain, close).fields.Keys == {"$concat"};
    assert es[1..] == [chain, embed(close)] && [chain, embed(close)][1..] == [embed(close)];
    assert [embed(close)][1..] == [];
    assert EvalConcat([embed(close)], env) == ConcatValues(Eval(embed(close), env), Some(Str("")));
    assert EvalConcat([chain, embed(close)], env)
        == ConcatValues(Eval(chain, env), EvalConcat([embed(close)], env));
  }

  /** The constants of an expression, embedded, evaluate to strings or nulls. */
  predicate PassesEvaluate(embed: Embedding, passes: seq<Pass>, env: Environment) {
    forall i :: 0 <= i < |passes| ==>
      IsTextOrNull(Eval(embed(passes[i].0), env)) && IsTextOrNull(Eval(embed(passes[i].1), env))
  }

  lemma {:induction false} ChainEvaluates(embed: Embedding, input: Bson, passes: seq<Pass>, env: Environment)
    ensures IsTextOrNull(Eval(ReplaceChain(embed, input, passes), env))
       <==> IsTextOrNull(Eval(input, env)) && PassesEvaluate(embed, passes, env)
    ensures passes != [] ==>
      (Eval(ReplaceChain(embed, input, passes), env).Some? <==>
       IsTextOrNull(Eval(input, env)) && PassesEvaluate(embed, passes, env))
    decreases |passes|
  {
    if passes != [] {
      ReplaceAllEvaluates(embed, input, passes[0], env);
      ChainEvaluates(embed, ReplaceAllExpression(embed, input, passes[0]), passes[1..], env);
      assert passes == [passes[0]] + passes[1..];
    }
  }

  /**
   An expression of this form has a value exactly if the pattern and every constant, as it is embedded,
   evaluate to strings or nulls.
   */
  lemma HasValueExact(embed: Embedding, open: string, pattern: Bson, passes: seq<Pass>, close: string, env: Environment)
    ensures Eval(Anchored(embed, open, ReplaceChain(embed, pattern, passes), close), env).Some?
       <==> IsTextOrNull(Eval(pattern, env)) && PassesEvaluate(embed, passes, env)
            && IsTextOrNull(Eval(embed(open), env)) && IsTextOrNull(Eval(embed(close), env))
  {
    AnchoredEvaluates(embed, open, ReplaceChain(embed, pattern, passes), close, env);
    ChainEvaluates(embed, pattern, passes, env);
  }

  /** The expression that is emitted for a pattern that is not literal has no value: `$` is not a field path. */
  lemma EmittedHasNoValue(pattern: Bson, env: Environment)
    ensures Eval(Anchored(Bare, "^", ReplaceChain(Bare, pattern, Passes(Replacements())), "$"), env) == None
  {
    HasValueExact(Bare, "^", pattern, Passes(Replacements()), "$", env);
    DollarHasNoValue(env);
  }

  lemma DollarHasNoValue(env: Environment)
    ensures Eval(BsonString("$"), env) == None
  {
    assert "$"[1..] == "" && Split("") == [""];
  }

  // ----- which constants evaluate to themselves -----

  /** Where all constants evaluate to themselves, the expression has the intended text as its value. */
  lemma {:induction false} ChainText(embed: Embedding, input: Bson, passes: seq<Pass>, env: Environment, text: string)
    requires Eval(input, env) == Some(Str(text))
    requires forall i :: 0 <= i < |passes| ==>
      Eval(embed(passes[i].0), env) == Some(Str(passes[i].0)) && Eval(embed(passes[i].1), env) == Some(Str(passes[i].1))
    ensures Eval(ReplaceChain(embed, input, passes), env) == Some(Str(ReplacedText(text, passes)))
    decreases |passes|
  {
    if passes != [] {
      ReplaceAllEvaluates(embed, input, passes[0], env);
      var next := ReplaceAllExpression(embed, input, passes[0]);
      ChainText(embed, next, passes[1..], env, Replaced(text, passes[0].0, passes[0].1));
    }
  }

  /** The constant is read as text, not as a path. */
  predicate IsText(s: string) {
    s == "" || s[0] != '$'
  }

  predicate ArePlain(passes: seq<Pass>) {
    forall i :: 0 <= i < |passes| ==> IsText(passes[i].0) && IsText(passes[i].1)
  }

  /** In every environment, and for every pattern with a text as its value, the value is the intended text. */
  ghost predicate Intended(embed: Embedding, open: string, passes: seq<Pass>, close: string) {
    forall pattern: Bson, env: Environment, text: string :: Eval(pattern, env) == Some(Str(text)) ==>
      Eval(Anchored(embed, open, ReplaceChain(embed, pattern, passes), close), env)
      == Some(Str(open + ReplacedText(text, passes) + close))
  }

  lemma AnchoredText(embed: Embedding, open: string, pattern: Bson, passes: seq<Pass>, close: string,
                     env: Environment, text: string)
    requires Eval(pattern, env) == Some(Str(text))
    requires Eval(embed(open), env) == Some(Str(open)) && Eval(embed(close), env) == Some(Str(close))
    requires forall i :: 0 <= i < |passes| ==>
      Eval(embed(passes[i].0), env) == Some(Str(passes[i].0)) && Eval(embed(passes[i].1), env) == Some(Str(passes[i].1))
    ensures Eval(Anchored(embed, open, ReplaceChain(embed, pattern, passes), close), env)
         == Some(Str(open + ReplacedText(text, passes) + close))
  {
    ChainText(embed, pattern, passes, env, text);
    AnchoredEvaluates(embed, open, ReplaceChain(embed, pattern, passes), close, env);
    Regroup(open, ReplacedText(text, passes), close);
    assert close + "" == close;
  }

  /** In an environment without values a path is invalid or null. */
  lemma PathWithoutValue(s: string)
    requires !IsText(s)
    ensures var v := Eval(BsonString(s), Environment(Null, map[])); v == None || v == Some(Null)
  {
    LookupNothing(Split(s[1..]));
  }

  lemma SomePathMisread(open: string, passes: seq<Pass>, close: string)
    requires !(IsText(open) && IsText(close) && ArePlain(passes))
    ensures !Intended(Bare, open, passes, close)
  {
    var env, pattern := Environment(Null, map[]), LiteralName("");
    LiteralEvaluates("", env);
    var chain := ReplaceChain(Bare, pattern, passes);
    AnchoredEvaluates(Bare, open, chain, close, env);
    if !ArePlain(passes) {
      var i :| 0 <= i < |passes| && !(IsText(passes[i].0) && IsText(passes[i].1));
      PathInChain(pattern, passes, env, i);
    } else if !IsText(open) {
      PathWithoutValue(open);
    } else {
      PathWithoutValue(close);
    }
    assert Eval(Anchored(Bare, open, chain, close), env) != Some(Str(open + ReplacedText("", passes) + close));
  }

  predicate NoText(v: Option<Value>) {
    v == None || v == Some(Null)
  }

  lemma {:induction false} NoTextInput(input: Bson, passes: seq<Pass>, env: Environment)
    requires NoText(Eval(input, env))
    ensures NoText(Eval(ReplaceChain(Bare, input, passes), env))
    decreases |passes|
  {
    if passes != [] {
      ReplaceAllEvaluates(Bare, input, passes[0], env);
      NoTextInput(ReplaceAllExpression(Bare, input, passes[0]), passes[1..], env);
    }
  }

  lemma {:induction false} PathInChain(input: Bson, passes: seq<Pass>, env: Environment, i: nat)
    requires i < |passes| && !(IsText(passes[i].0) && IsText(passes[i].1)) && env == Environment(Null, map[])
    ensures NoText(Eval(ReplaceChain(Bare, input, passes), env))
    decreases |passes|
  {
    ReplaceAllEvaluates(Bare, input, passes[0], env);
    var next := ReplaceAllExpression(Bare, input, passes[0]);
    if i == 0 {
      PathWithoutValue(if IsText(passes[0].0) then passes[0].1 else passes[0].0);
      NoTextInput(next, passes[1..], env);
    } else {
      PathInChain(next, passes[1..], env, i - 1);
    }
  }

  /**
   With bare constants an expression of this form always has the intended value exactly if no constant,
   be it an anchor, searched for or a replacement, starts with a dollar sign.
   */
  lemma BareExact(open: string, passes: seq<Pass>, close: string)
    ensures Intended(Bare, open, passes, close)
       <==> IsText(open) && IsText(close) && ArePlain(passes)
  {
    if IsText(open) && IsText(close) && ArePlain(passes) {
      forall pattern: Bson, env: Environment, text: string | Eval(pattern, env) == Some(Str(text))
        ensures Eval(Anchored(Bare, open, ReplaceChain(Bare, pattern, passes), close), env)
             == Some(Str(open + ReplacedText(text, passes) + close))
      {
        AnchoredText(Bare, open, pattern, passes, close, env, text);
      }
    } else {
      SomePathMisread(open, passes, close);
    }
  }

  /** With quoted constants it always has. */
  lemma QuotedIntended(open: string, passes: seq<Pass>, close: string)
    ensures Intended(Quoted, open, passes, close)
  {
    forall pattern: Bson, env: Environment, text: string | Eval(pattern, env) == Some(Str(text))
      ensures Eval(Anchored(Quoted, open, ReplaceChain(Quoted, pattern, passes), close), env)
           == Some(Str(open + ReplacedText(text, passes) + close))
    {
      forall s: string ensures Eval(Quoted(s), env) == Some(Str(s)) {
        LiteralEvaluates(s, env);
      }
      AnchoredText(Quoted, open, pattern, passes, close, env, text);
    }
  }

  // ----- what the values match -----

  lemma {:induction false} ReplacedCharacter(s: string, find: char, replacement: string)
    ensures Replaced(s, [find], replacement) == ReplaceAll(s, find, replacement)
  {
    if s != "" {
      ReplacedCharacter(s[1..], find, replacement);
    }
  }

  lemma {:induction false} PassesChain(text: string, replacements: seq<Replacement>)
    ensures ReplacedText(text, Passes(replacements)) == Chain(text, replacements)
    decreases |replacements|
  {
    if replacements != [] {
      var first := replacements[0];
      ReplacedCharacter(text, first.find, first.replacement);
      assert Passes(replacements)[1..] == Passes(replacements[1..]);
      PassesChain(ReplaceAll(text, first.find, first.replacement), replacements[1..]);
    }
  }

  /** The value of the expression is the text of a regular expression that matches as LIKE demands. */
  ghost predicate MatchesAsLike(value: Option<Value>, pattern: string) {
    && value.Some? && value.value.Str?
    && forall s :: '\n' !in s ==> (RegexMatches(value.value.s, s) <==> Like(pattern, s))
  }

  /** A literal pattern is translated to a string that evaluates to itself, and matches as LIKE demands. */
  lemma LiteralTranslation(pattern: string, env: Environment)
    ensures MatchesAsLike(Eval(BsonString("^" + RegexBody(pattern) + "$"), env), pattern)
  {
    var regex := "^" + RegexBody(pattern) + "$";
    assert regex[0] == '^';
    LikeCorrectForAll(pattern);
  }

  /**
   With quoted constants the run-time expression matches as LIKE demands exactly if no backslash in the
   pattern's value escapes anything, or that value has a newline.
   */
  lemma QuotedExact(expr: Bson, env: Environment, pattern: string)
    requires Eval(expr, env) == Some(Str(pattern))
    ensures var passes := Passes(Replacements());
      MatchesAsLike(Eval(Anchored(Quoted, "^", ReplaceChain(Quoted, expr, passes), "$"), env), pattern)
      <==> !HasEscape(pattern) || '\n' in pattern
  {
    QuotedIntended("^", Passes(Replacements()), "$");
    PassesChain(pattern, Replacements());
    DynamicExact(pattern);
  }
}
