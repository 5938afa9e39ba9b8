/**
 References to document fields: as match keys and dotted shorthand where all names allow it, and as
 nested `$getField` expressions otherwise.
 */
module ColumnRefs {
  import opened Options
  import opened Text
  import opened Values
  import opened VariableNames

  datatype Bson = BsonString(s: string) | BsonArray(elements: seq<Bson>) | BsonDocument(fields: map<string, Bson>)

  datatype ColumnRef =
    | MatchKey(key: string)
    | ExpressionStringShorthand(shorthand: string)
    | Expression(expression: Bson)

  // ----- compiling paths -----

  function PipelineVariable(name: string): ColumnRef {
    ExpressionStringShorthand("$$" + name)
  }

  function IntoAggregateExpression(r: ColumnRef): Bson {
    match r
    case MatchKey(key) => BsonString("$" + key)
    case ExpressionStringShorthand(shorthand) => BsonString(shorthand)
    case Expression(expression) => expression
  }

  function LiteralName(name: string): Bson {
    BsonDocument(map["$literal" := BsonString(name)])
  }

  function FoldPathElement(refSoFar: Option<ColumnRef>, name: string): ColumnRef {
    match refSoFar
    case None =>
      if IsNameSafe(name) then MatchKey(name) else Expression(BsonDocument(map["$getField" := LiteralName(name)]))
    case Some(parent) =>
      if parent.MatchKey? && IsNameSafe(name) then MatchKey(parent.key + "." + name)
      else if parent.ExpressionStringShorthand? && IsNameSafe(name) then
        ExpressionStringShorthand(parent.shorthand + "." + name)
      else
        Expression(BsonDocument(map["$getField" := BsonDocument(map[
          "input" := IntoAggregateExpression(parent),
          "field" := LiteralName(name)])]))
  }

  function FromPath(init: Option<ColumnRef>, path: seq<string>): (r: Option<ColumnRef>)
    ensures r.None? <==> init.None? && path == []
    decreases |path|
  {
    if path == [] then init else FromPath(Some(FoldPathElement(init, path[0])), path[1..])
  }

  // ----- evaluating expressions -----

  datatype Environment = Environment(current: Value, variables: map<string, Value>)

  /** Components of paths are not empty and do not start with a dollar sign. */
  predicate IsComponent(name: string) {
    name != "" && name[0] != '$'
  }

  predicate AreComponents(names: seq<string>) {
    forall i :: 0 <= i < |names| ==> IsComponent(names[i])
  }

  /** The value of an expression; evaluation of an invalid path is an error. */
  function Eval(e: Bson, env: Environment): Option<Value>
    decreases e, 0
  {
    match e
    case BsonString(s) =>
      if s == "" || s[0] != '$' then Some(Str(s))
      else if |s| > 1 && s[1] == '$' then
        var parts := Split(s[2..]);
        if parts[0] in env.variables && AreComponents(parts[1..]) then
          Some(Lookup(env.variables[parts[0]], parts[1..]))
        else None
      else if AreComponents(Split(s[1..])) then Some(Lookup(env.current, Split(s[1..])))
      else None
    case BsonArray(_) => None  // no expression here has an array as its value
    case BsonDocument(fields) =>
      if fields.Keys == {"$literal"} && fields["$literal"].BsonString? then Some(Str(fields["$literal"].s))
      else if fields.Keys == {"$getField"} then
        var argument := fields["$getField"];
        if argument.BsonDocument? && argument.fields.Keys == {"input", "field"} then
          GetField(Eval(argument.fields["input"], env), Eval(argument.fields["field"], env))
        else GetField(Some(env.current), Eval(argument, env))
      else if fields.Keys == {"$replaceAll"} && fields["$replaceAll"].BsonDocument? then
        var arguments := fields["$replaceAll"].fields;
        if arguments.Keys == {"input", "find", "replacement"} then
          ReplaceAllIn(Eval(arguments["input"], env), Eval(arguments["find"], env), Eval(arguments["replacement"], env))
        else None
      else if fields.Keys == {"$concat"} && fields["$concat"].BsonArray? then
        EvalConcat(fields["$concat"].elements, env)
      else None
  }

  function EvalConcat(es: seq<Bson>, env: Environment): Option<Value>
    decreases es, 1
  {
    if es == [] then Some(Str("")) else ConcatValues(Eval(es[0], env), EvalConcat(es[1..], env))
  }

  function GetField(input: Option<Value>, name: Option<Value>): Option<Value> {
    if input.Some? && name.Some? && name.value.Str? then Some(Field(input.value, name.value.s)) else None
  }

  /** The operators on strings take strings and nulls, and yield null for null. */
  predicate IsTextOrNull(v: Option<Value>) {
    v.Some? && (v.value.Str? || v.value.Null?)
  }

  function ConcatValues(first: Option<Value>, rest: Option<Value>): Option<Value> {
    if !IsTextOrNull(first) || !IsTextOrNull(rest) then None
    else if first.value.Null? || rest.value.Null? then Some(Null)
    else Some(Str(first.value.s + rest.value.s))
  }

  function ReplaceAllIn(input: Option<Value>, find: Option<Value>, replacement: Option<Value>): Option<Value> {
    if !IsTextOrNull(input) || !IsTextOrNull(find) || !IsTextOrNull(replacement) then None
    else if input.value.Null? || find.value.Null? || replacement.value.Null? then Some(Null)
    else Some(Str(Replaced(input.value.s, find.value.s, replacement.value.s)))
  }

  function Meaning(r: ColumnRef, env: Environment): Option<Value> {
    Eval(IntoAggregateExpression(r), env)
  }

  // ----- what references mean -----

  function LookupIn(v: Option<Value>, path: seq<string>): Option<Value> {
    if v.Some? then Some(Lookup(v.value, path)) else None
  }

  /** The names at the start of a path that need no `$getField`. */
  function SafeRun(path: seq<string>): seq<string> {
    if path == [] || !IsNameSafe(path[0]) then [] else [path[0]] + SafeRun(path[1..])
  }

  lemma SplitExtended(t: string, name: string)
    requires '.' !in name
    ensures Split(t + "." + name) == Split(t) + [name]
  {
    SplitJoined(t, name);
    SplitUndotted(name);
  }

  lemma ComponentsExtended(parts: seq<string>, name: string)
    ensures AreComponents(parts + [name]) <==> AreComponents(parts) && IsComponent(name)
  {
    var longer := parts + [name];
    assert forall i :: 0 <= i < |parts| ==> longer[i] == parts[i];
    assert longer[|parts|] == name;
  }

  lemma LookupExtended(v: Value, path: seq<string>, name: string)
    ensures Lookup(v, path + [name]) == Field(Lookup(v, path), name)
  {
    LookupAppend(v, path, [name]);
    assert Lookup(Lookup(v, path), [name]) == Lookup(Field(Lookup(v, path), name), []);
  }

  /** Shorthand is extended by safe names; an empty name makes it invalid. */
  lemma ShorthandExtended(t: string, name: string, env: Environment)
    requires t != "" && t[0] == '$' && IsNameSafe(name)
    ensures Eval(BsonString(t + "." + name), env) ==
      if name == "" then None else GetField(Eval(BsonString(t), env), Some(Str(name)))
  {
    var s := t + "." + name;
    if |t| > 1 && t[1] == '$' {
      assert s[2..] == t[2..] + "." + name;
      VariableExtended(t[2..], name, env);
    } else {
      assert s[1..] == t[1..] + "." + name;
      var parts := Split(t[1..]);
      SplitExtended(t[1..], name);
      ComponentsExtended(parts, name);
      LookupExtended(env.current, parts, name);
    }
  }

  lemma VariableExtended(t: string, name: string, env: Environment)
    requires '.' !in name
    ensures var parts, longer := Split(t), Split(t + "." + name);
      && longer[0] == parts[0]
      && (AreComponents(longer[1..]) <==> AreComponents(parts[1..]) && IsComponent(name))
      && forall v :: Lookup(v, longer[1..]) == Field(Lookup(v, parts[1..]), name)
  {
    var parts, longer := Split(t), Split(t + "." + name);
    SplitExtended(t, name);
    assert longer[1..] == parts[1..] + [name];
    ComponentsExtended(parts[1..], name);
    forall v ensures Lookup(v, longer[1..]) == Field(Lookup(v, parts[1..]), name) {
      LookupExtended(v, parts[1..], name);
    }
  }

  lemma LiteralEvaluates(name: string, env: Environment)
    ensures Eval(LiteralName(name), env) == Some(Str(name))
  {
    assert LiteralName(name).fields.Keys == {"$literal"};
  }

  lemma GetFieldEvaluates(input: Bson, name: string, env: Environment)
    ensures var argument := BsonDocument(map["input" := input, "field" := LiteralName(name)]);
      Eval(BsonDocument(map["$getField" := argument]), env) == GetField(Eval(input, env), Some(Str(name)))
  {
    LiteralEvaluates(name, env);
    var argument := BsonDocument(map["input" := input, "field" := LiteralName(name)]);
    var e := BsonDocument(map["$getField" := argument]);
    assert argument.fields.Keys == {"input", "field"};
    assert e.fields.Keys == {"$getField"} && "$getField" != "$literal";
    assert e.fields["$getField"] == argument;
  }

  predicate IsShorthand(r: ColumnRef) {
    match r
    case MatchKey(_) => true
    case ExpressionStringShorthand(s) => s != "" && s[0] == '$'
    case Expression(_) => false
  }

  /** One more path element reads one more field, unless an empty name makes shorthand invalid. */
  lemma ElementEvaluates(parent: ColumnRef, name: string, env: Environment)
    requires IsShorthand(parent) || parent.Expression?
    ensures var r := FoldPathElement(Some(parent), name);
      && (IsShorthand(r) <==> IsShorthand(parent) && IsNameSafe(name)) && (IsShorthand(r) || r.Expression?)
      && Meaning(r, env)
         == if IsShorthand(r) && name == "" then None else GetField(Meaning(parent, env), Some(Str(name)))
  {
    if IsShorthand(parent) && IsNameSafe(name) {
      var text := IntoAggregateExpression(parent).s;
      ShorthandExtended(text, name, env);
      assert parent.MatchKey? ==> "$" + (parent.key + "." + name) == "$" + parent.key + "." + name;
    } else {
      GetFieldEvaluates(IntoAggregateExpression(parent), name, env);
    }
  }

  /** Folding a path onto a reference looks up the path, unless shorthand meets an empty name. */
  lemma {:induction false} FoldEvaluates(parent: ColumnRef, path: seq<string>, env: Environment)
    requires IsShorthand(parent) || parent.Expression?
    ensures Meaning(FromPath(Some(parent), path).value, env) ==
      if IsShorthand(parent) && "" in SafeRun(path) then None else LookupIn(Meaning(parent, env), path)
    decreases |path|
  {
    if path != [] {
      ElementEvaluates(parent, path[0], env);
      FoldEvaluates(FoldPathElement(Some(parent), path[0]), path[1..], env);
    }
  }

  /**
   The compiled expression of a path evaluates to what stepwise lookup finds, exactly if there is no
   empty name before the first unsafe one; otherwise it is invalid.
   */
  lemma PathEvaluates(path: seq<string>, env: Environment)
    requires path != []
    ensures Meaning(FromPath(None, path).value, env) ==
      if "" in SafeRun(path) then None else Some(Lookup(env.current, path))
  {
    var first := FoldPathElement(None, path[0]);
    FirstEvaluates(path[0], env);
    FoldEvaluates(first, path[1..], env);
  }

  lemma FirstEvaluates(name: string, env: Environment)
    ensures var r := FoldPathElement(None, name);
      && (IsShorthand(r) <==> IsNameSafe(name)) && (IsShorthand(r) || r.Expression?)
      && Meaning(r, env) == if name == "" then None else Some(Field(env.current, name))
  {
    if IsNameSafe(name) {
      assert ("$" + name)[1..] == name;
      SplitUndotted(name);
      assert AreComponents([name]) <==> IsComponent([name][0]);
      assert Lookup(env.current, [name]) == Lookup(Field(env.current, name), []);
    } else {
      LiteralEvaluates(name, env);
      var e := BsonDocument(map["$getField" := LiteralName(name)]);
      assert e.fields.Keys == {"$getField"} && "$getField" != "$literal";
      assert e.fields["$getField"] == LiteralName(name);
      assert "$literal" in LiteralName(name).fields && "$literal" !in {"input", "field"};
    }
  }

  /** From a pipeline variable, the path is looked up in its value. */
  lemma VariablePathEvaluates(variable: string, path: seq<string>, env: Environment)
    requires '.' !in variable && variable in env.variables
    ensures Meaning(FromPath(Some(PipelineVariable(variable)), path).value, env) ==
      if "" in SafeRun(path) then None else Some(Lookup(env.variables[variable], path))
  {
    assert ("$$" + variable)[2..] == variable;
    SplitUndotted(variable);
    FoldEvaluates(PipelineVariable(variable), path, env);
  }

  lemma {:induction false} NonEmptyRun(path: seq<string>)
    requires "" !in path
    ensures "" !in SafeRun(path)
  {
    if path != [] {
      assert path[0] in path;
      NonEmptyRun(path[1..]);
    }
  }

  /** Any non-empty path of non-empty names, dots and dollar signs included, compiles to its lookup. */
  lemma NonEmptyPathEvaluates(path: seq<string>, env: Environment)
    requires path != [] && "" !in path
    ensures Meaning(FromPath(None, path).value, env) == Some(Lookup(env.current, path))
  {
    NonEmptyRun(path);
    PathEvaluates(path, env);
  }

  /** A name is safe exactly if its shorthand reads the field of that name, or it is empty. */
  lemma NameSafeExact(name: string)
    ensures IsNameSafe(name) <==>
      name == "" || forall env :: Meaning(MatchKey(name), env) == Some(Field(env.current, name))
  {
    if IsNameSafe(name) {
      forall env ensures name != "" ==> Meaning(MatchKey(name), env) == Some(Field(env.current, name)) {
        FirstEvaluates(name, env);
      }
    } else {
      var env := Environment(Record(map[name := Int(1)]), map[]);
      UnsafeMisread(name, env);
    }
  }

  lemma UnsafeMisread(name: string, env: Environment)
    requires !IsNameSafe(name) && env == Environment(Record(map[name := Int(1)]), map[])
    ensures Meaning(MatchKey(name), env) != Some(Field(env.current, name))
  {
    var s := "$" + name;
    assert s[1..] == name;
    if name[0] != '$' {
      SplitDotted(name);
      var parts := Split(name);
      assert Field(env.current, parts[0]) == Null;
      LookupNothing(parts[1..]);
    } else {
      assert s[1] == '$';
    }
  }

  // ----- match keys -----

  lemma {:induction false} FoldMatchKey(parent: ColumnRef, path: seq<string>)
    ensures var r := FromPath(Some(parent), path).value;
      && (r.MatchKey? <==> parent.MatchKey? && forall name :: name in path ==> IsNameSafe(name))
      && (r.MatchKey? ==> Split(r.key) == Split(parent.key) + path)
    decreases |path|
  {
    if path != [] {
      var name, rest := path[0], path[1..];
      assert path == [name] + rest;
      var next := FoldPathElement(Some(parent), name);
      FoldMatchKey(next, rest);
      if next.MatchKey? {
        SplitExtended(parent.key, name);
        assert Split(parent.key) + [name] + rest == Split(parent.key) + path;
      }
    }
  }

  /** A path is a match key exactly if all its names are safe, and then the key's components are the path. */
  lemma MatchKeyExact(path: seq<string>)
    requires path != []
    ensures var r := FromPath(None, path).value;
      && (r.MatchKey? <==> forall name :: name in path ==> IsNameSafe(name))
      && (r.MatchKey? ==> Split(r.key) == path)
  {
    var name, rest := path[0], path[1..];
    assert path == [name] + rest;
    FoldMatchKey(FoldPathElement(None, name), rest);
    if IsNameSafe(name) {
      SplitUndotted(name);
    }
  }
}
