/** Database values: scalars and nested documents. A missing field reads as null. */
module Values {
  import opened Text

  datatype Value =
    | Null
    | Bool(b: bool)
    | Int(i: int)
    | Float(r: real)
    | Str(s: string)
    | Record(fields: map<string, Value>)

  /** The value of one field. */
  function Field(v: Value, name: string): Value {
    if v.Record? && name in v.fields then v.fields[name] else Null
  }

  /** Stepwise lookup of nested fields. */
  function Lookup(v: Value, path: seq<string>): Value
    decreases |path|
  {
    if path == [] then v else Lookup(Field(v, path[0]), path[1..])
  }

  /** The value a dotted path such as `a.b.c` addresses. */
  function AtPath(v: Value, path: string): Value {
    Lookup(v, Split(path))
  }

  lemma {:induction false} LookupAppend(v: Value, p: seq<string>, q: seq<string>)
    ensures Lookup(v, p + q) == Lookup(Lookup(v, p), q)
    decreases |p|
  {
    if p == [] {
      assert p + q == q;
    } else {
      LookupAppend(Field(v, p[0]), p[1..], q);
      assert (p + q)[1..] == p[1..] + q;
    }
  }

  /** Extending a dotted path by an undotted name reads that field of the addressed value. */
  lemma AtPathField(v: Value, path: string, name: string)
    requires '.' !in name
    ensures AtPath(v, path + "." + name) == Field(AtPath(v, path), name)
  {
    SplitJoined(path, name);
    SplitUndotted(name);
    LookupAppend(v, Split(path), [name]);
    assert Lookup(Lookup(v, Split(path)), [name]) == Lookup(Field(Lookup(v, Split(path)), name), []);
  }

  // ----- documents with one value -----

  /** The document that holds the value at the path, and nothing else. */
  function Nested(path: seq<string>, v: Value): Value
    decreases |path|
  {
    if path == [] then v else Record(map[path[0] := Nested(path[1..], v)])
  }

  lemma {:induction false} LookupNested(path: seq<string>, v: Value)
    ensures Lookup(Nested(path, v), path) == v
    decreases |path|
  {
    if path != [] {
      LookupNested(path[1..], v);
    }
  }

  lemma {:induction false} LookupNothing(path: seq<string>)
    ensures Lookup(Null, path) == Null
    decreases |path|
  {
    if path != [] {
      LookupNothing(path[1..]);
    }
  }

  /** A scalar is found at its path only. */
  lemma {:induction false} LookupElsewhere(path: seq<string>, i: int, other: seq<string>)
    ensures Lookup(Nested(path, Int(i)), other) == Int(i) <==> other == path
    decreases |path|
  {
    if other == [] {
    } else if path == [] {
      LookupNothing(other[1..]);
    } else if other[0] == path[0] {
      LookupElsewhere(path[1..], i, other[1..]);
      assert path == [path[0]] + path[1..] && other == [other[0]] + other[1..];
    } else {
      LookupNothing(other[1..]);
    }
  }

  /** Two paths that differ are told apart by a document. */
  lemma PathsDiffer(path: string, i: int, other: string)
    ensures AtPath(Nested(Split(path), Int(i)), other) == Int(i) <==> other == path
  {
    LookupElsewhere(Split(path), i, Split(other));
    if Split(other) == Split(path) {
      SplitInjective(other, path);
    }
  }

  /** A field named with a dot cannot be addressed by appending its name to a path. */
  lemma DottedField(path: string, name: string, v: Value)
    requires '.' in name
    ensures var doc := Nested(Split(path), Record(map[name := v]));
      Field(AtPath(doc, path), name) == v && AtPath(doc, path + "." + name) == Null
  {
    var inner := Record(map[name := v]);
    LookupNested(Split(path), inner);
    SplitJoined(path, name);
    LookupAppend(Nested(Split(path), inner), Split(path), Split(name));
    SplitDotted(name);
    LookupNothing(Split(name)[1..]);
  }

  /** Appending a name to a path reads the field of that name everywhere, exactly if the name has no dot. */
  lemma DottedNameExact(name: string)
    ensures (forall v, path :: AtPath(v, path + "." + name) == Field(AtPath(v, path), name)) <==> '.' !in name
  {
    if '.' in name {
      var doc := Nested(Split("x"), Record(map[name := Int(1)]));
      DottedField("x", name, Int(1));
      assert AtPath(doc, "x" + "." + name) != Field(AtPath(doc, "x"), name);
    } else {
      forall v, path ensures AtPath(v, path + "." + name) == Field(AtPath(v, path), name) {
        AtPathField(v, path, name);
      }
    }
  }
}
