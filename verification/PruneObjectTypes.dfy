/**
 Pruning added object types to those the reference types need, and simplifying their names. The
 result is, up to an injective renaming, exactly the added types that are reachable, and every
 reference type still unfolds to the same structure, unless an added type that shares the name of an
 existing one is renamed.
 */
module PruneObjectTypes {
  import opened Options
  import opened BsonScalars
  import opened SchemaTypes
  import opened ObjectTypes
  import opened TypeNames
  import opened Decimals

  // ----- references between types -----

  /** The object type a type refers to, if any. */
  function Ref(t: Type): Option<string> {
    match t
    case Object(name) => Some(name)
    case Predicate(name) => Some(name)
    case ArrayOf(element) => Ref(element)
    case Nullable(inner) => Ref(inner)
    case _ => None
  }

  /** An added type refers to another; existing types are not looked into. */
  predicate Step(existing: set<string>, added: Env, from: string, to: string) {
    && from !in existing && from in added
    && exists f :: f in added[from] && Ref(added[from][f]) == Some(to)
  }

  ghost predicate IsPath(existing: set<string>, added: Env, path: seq<string>) {
    |path| > 0 && forall i :: 0 <= i < |path| - 1 ==> Step(existing, added, path[i], path[i + 1])
  }

  ghost predicate Reachable(existing: set<string>, added: Env, from: string, to: string) {
    exists path :: IsPath(existing, added, path) && path[0] == from && path[|path| - 1] == to
  }

  /** Some reference type reaches the name. */
  ghost predicate Required(existing: set<string>, added: Env, refs: seq<Type>, name: string) {
    exists i :: 0 <= i < |refs| && Ref(refs[i]).Some? && Reachable(existing, added, Ref(refs[i]).value, name)
  }

  lemma ReachableSelf(existing: set<string>, added: Env, name: string)
    ensures Reachable(existing, added, name, name)
  {
    assert IsPath(existing, added, [name]);
  }

  lemma ReachableStep(existing: set<string>, added: Env, a: string, b: string, c: string)
    requires Step(existing, added, a, b) && Reachable(existing, added, b, c)
    ensures Reachable(existing, added, a, c)
  {
    var path :| IsPath(existing, added, path) && path[0] == b && path[|path| - 1] == c;
    var longer := [a] + path;
    forall i | 0 <= i < |longer| - 1 ensures Step(existing, added, longer[i], longer[i + 1]) {
      if i > 0 { assert Step(existing, added, path[i - 1], path[i]); }
    }
    assert IsPath(existing, added, longer);
  }

  lemma ReachableFirstStep(existing: set<string>, added: Env, a: string, c: string)
    requires Reachable(existing, added, a, c) && a != c
    ensures exists b :: Step(existing, added, a, b) && Reachable(existing, added, b, c)
  {
    var path :| IsPath(existing, added, path) && path[0] == a && path[|path| - 1] == c;
    var rest := path[1..];
    forall i | 0 <= i < |rest| - 1 ensures Step(existing, added, rest[i], rest[i + 1]) {
      assert Step(existing, added, path[i + 1], path[i + 2]);
    }
    assert Step(existing, added, path[0], path[1]);
    assert IsPath(existing, added, rest) && rest[0] == path[1];
  }

  lemma {:induction false} ReachableExtended(existing: set<string>, added: Env, a: string, b: string, c: string)
    requires Reachable(existing, added, a, b) && Step(existing, added, b, c)
    ensures Reachable(existing, added, a, c)
  {
    var path :| IsPath(existing, added, path) && path[0] == a && path[|path| - 1] == b;
    var longer := path + [c];
    forall i | 0 <= i < |longer| - 1 ensures Step(existing, added, longer[i], longer[i + 1]) {
      if i < |path| - 1 { assert Step(existing, added, path[i], path[i + 1]); }
    }
    assert IsPath(existing, added, longer);
  }

  /** A ranking that decreases along references: the added types are acyclic. */
  ghost predicate Ranked(existing: set<string>, added: Env, rank: map<string, nat>) {
    && added.Keys <= rank.Keys
    && forall a, b {:trigger Step(existing, added, a, b)} ::
         Step(existing, added, a, b) && b in added ==> rank[b] < rank[a]
  }

  ghost function NameRank(added: Env, rank: map<string, nat>, name: string): nat
    requires added.Keys <= rank.Keys
  {
    if name in added then rank[name] + 1 else 0
  }

  ghost function TypeRank(added: Env, rank: map<string, nat>, t: Type): nat
    requires added.Keys <= rank.Keys
  {
    match Ref(t) case Some(name) => NameRank(added, rank, name) case None => 0
  }

  // ----- collecting -----

  /** `found` has grown by exactly what is reachable from `name`. */
  ghost predicate GrownBy(existing: set<string>, added: Env, before: set<string>, found: set<string>,
                          name: Option<string>) {
    forall n :: n in found <==> n in before || (name.Some? && Reachable(existing, added, name.value, n))
  }

  /** The unknown name is reachable from `name`. */
  ghost predicate Unknown(existing: set<string>, added: Env, name: string, unknown: string) {
    Reachable(existing, added, name, unknown) && unknown !in existing && unknown !in added
  }

  /** Everything reachable from `name` is an existing or an added type. */
  ghost predicate AllKnown(existing: set<string>, added: Env, name: string) {
    forall n :: Reachable(existing, added, name, n) ==> n in existing || n in added
  }

  method CollectNamesFromType(existing: set<string>, added: Env, found0: set<string>, t: Type,
                              ghost rank: map<string, nat>)
      returns (unknown: Option<string>, found: set<string>)
    requires Ranked(existing, added, rank)
    ensures unknown.None? ==> GrownBy(existing, added, found0, found, Ref(t))
    ensures unknown.None? && Ref(t).Some? ==> AllKnown(existing, added, Ref(t).value)
    ensures unknown.Some? ==> Ref(t).Some? && Unknown(existing, added, Ref(t).value, unknown.value)
    decreases TypeRank(added, rank, t), 2, t
  {
    match t
    case Object(name) => unknown, found := CollectName(existing, added, found0, name, rank);
    case Predicate(name) => unknown, found := CollectName(existing, added, found0, name, rank);
    case ArrayOf(element) => unknown, found := CollectNamesFromType(existing, added, found0, element, rank);
    case Nullable(inner) => unknown, found := CollectNamesFromType(existing, added, found0, inner, rank);
    case ExtendedJSON => unknown, found := None, found0;
    case Scalar(_) => unknown, found := None, found0;
  }

  /** Collects what a named type refers to, and then the name itself. */
  method CollectName(existing: set<string>, added: Env, found0: set<string>, name: string, ghost rank: map<string, nat>)
      returns (unknown: Option<string>, found: set<string>)
    requires Ranked(existing, added, rank)
    ensures unknown.None? ==> GrownBy(existing, added, found0, found, Some(name)) && AllKnown(existing, added, name)
    ensures unknown.Some? ==> Unknown(existing, added, name, unknown.value)
    decreases NameRank(added, rank, name), 1
  {
    unknown, found := CollectNamesFromObjectType(existing, added, found0, name, rank);
    if unknown.None? {
      found := found + {name};
      forall n ensures Reachable(existing, added, name, n) <==>
          n == name || exists b :: Step(existing, added, name, b) && Reachable(existing, added, b, n)
      {
        ReachableSelf(existing, added, name);
        if exists b :: Step(existing, added, name, b) && Reachable(existing, added, b, n) {
          var b :| Step(existing, added, name, b) && Reachable(existing, added, b, n);
          ReachableStep(existing, added, name, b, n);
        }
        if n != name && Reachable(existing, added, name, n) {
          ReachableFirstStep(existing, added, name, n);
        }
      }
    }
  }

  method CollectNamesFromObjectType(existing: set<string>, added: Env, found0: set<string>, name: string,
                                    ghost rank: map<string, nat>)
      returns (unknown: Option<string>, found: set<string>)
    requires Ranked(existing, added, rank)
    ensures unknown.None? ==> name in existing || name in added
    ensures unknown.None? ==> forall n :: n in found <==>
      n in found0 || exists b :: Step(existing, added, name, b) && Reachable(existing, added, b, n)
    ensures unknown.None? ==> forall b :: Step(existing, added, name, b) ==> AllKnown(existing, added, b)
    ensures unknown.Some? ==> Unknown(existing, added, name, unknown.value)
    decreases NameRank(added, rank, name), 0
  {
    found := found0;
    if name in existing {
      return None, found;
    }
    if name !in added {
      ReachableSelf(existing, added, name);
      return Some(name), found;
    }
    var fields := added[name];
    var remaining := fields.Keys;
    while remaining != {}
      invariant remaining <= fields.Keys
      invariant forall n :: n in found <==> n in found0 || exists f ::
        f in fields.Keys - remaining && Ref(fields[f]).Some? && Reachable(existing, added, Ref(fields[f]).value, n)
      invariant forall f :: f in fields.Keys - remaining && Ref(fields[f]).Some? ==>
        AllKnown(existing, added, Ref(fields[f]).value)
    {
      var f :| f in remaining;
      assert Ref(fields[f]).Some? ==> Step(existing, added, name, Ref(fields[f]).value);
      unknown, found := CollectNamesFromType(existing, added, found, fields[f], rank);
      if unknown.Some? {
        ReachableStep(existing, added, name, Ref(fields[f]).value, unknown.value);
        return;
      }
      remaining := remaining - {f};
    }
    unknown := None;
  }

  // ----- what types mean -----

  /** The structure of a type, with object types replaced by their fields. */
  datatype Tree =
    | JsonTree
    | ScalarTree(scalar: BsonScalarType)
    | ExistingTree(name: string)
    | FieldsTree(fields: map<string, Tree>)
    | PredicateTree(target: Tree)
    | ArrayTree(element: Tree)
    | NullableTree(inner: Tree)
    | UnknownTree(name: string)
    | Cut  // deeper than asked for

  /** The unfolding of a type through up to `depth` object types. */
  function Unfold(depth: nat, existing: set<string>, added: Env, t: Type): Tree
    decreases depth, 1, t
  {
    match t
    case ExtendedJSON => JsonTree
    case Scalar(s) => ScalarTree(s)
    case Object(name) => UnfoldName(depth, existing, added, name)
    case Predicate(name) => PredicateTree(UnfoldName(depth, existing, added, name))
    case ArrayOf(element) => ArrayTree(Unfold(depth, existing, added, element))
    case Nullable(inner) => NullableTree(Unfold(depth, existing, added, inner))
  }

  function UnfoldName(depth: nat, existing: set<string>, added: Env, name: string): (tree: Tree)
    ensures tree.ExistingTree? || tree.UnknownTree? || tree.Cut? || tree.FieldsTree?
    decreases depth, 0
  {
    if name in existing then ExistingTree(name)
    else if name !in added then UnknownTree(name)
    else if depth == 0 then Cut
    else FieldsTree(map f | f in added[name] :: Unfold(depth - 1, existing, added, added[name][f]))
  }

  predicate KnownType(existing: set<string>, added: Env, t: Type) {
    Ref(t).Some? ==> Ref(t).value in existing || Ref(t).value in added
  }

  /** No reference dangles. */
  predicate Closed(existing: set<string>, added: Env) {
    forall n, f :: n in added && f in added[n] ==> KnownType(existing, added, added[n][f])
  }

  // ----- renaming -----

  type Renaming = map<string, string>

  function RenameName(renaming: Renaming, name: string): string {
    if name in renaming then renaming[name] else name
  }

  function RenameType(renaming: Renaming, t: Type): Type {
    match t
    case Object(name) => Object(RenameName(renaming, name))
    case Predicate(name) => Predicate(RenameName(renaming, name))
    case ArrayOf(element) => ArrayOf(RenameType(renaming, element))
    case Nullable(inner) => Nullable(RenameType(renaming, inner))
    case _ => t
  }

  function RenameObject(renaming: Renaming, o: ObjectType): ObjectType {
    map f | f in o :: RenameType(renaming, o[f])
  }

  function RenameTypes(renaming: Renaming, types: seq<Type>): (renamed: seq<Type>)
    ensures |renamed| == |types|
  {
    seq(|types|, i requires 0 <= i < |types| => RenameType(renaming, types[i]))
  }

  /** `after` is `before` under an injective renaming of all its types. */
  ghost predicate IsRenaming(renaming: Renaming, before: Env, after: Env) {
    && renaming.Keys == before.Keys
    && (forall a, b :: a in renaming && b in renaming && renaming[a] == renaming[b] ==> a == b)
    && after.Keys == renaming.Values
    && (forall n :: n in before ==> after[renaming[n]] == RenameObject(renaming, before[n]))
  }

  method RenameObjectType(refs0: seq<Type>, types0: Env, oldName: string, newName: string)
      returns (refs: seq<Type>, types: Env)
    requires oldName in types0 && newName !in types0
    ensures refs == RenameTypes(map[oldName := newName], refs0)
    ensures RenamedOnce(types0, types, oldName, newName)
  {
    var renaming := map[oldName := newName];
    refs := refs0;
    for i := 0 to |refs0|
      invariant |refs| == |refs0|
      invariant forall j :: 0 <= j < i ==> refs[j] == RenameType(renaming, refs0[j])
      invariant forall j :: i <= j < |refs| ==> refs[j] == refs0[j]
    {
      refs := refs[i := RenameType(renaming, refs[i])];
    }
    types := map n | n in types0.Keys - {oldName} + {newName} ::
      RenameObject(renaming, types0[if n == newName then oldName else n]);
  }

  /** One more renaming on top of a renaming. */
  function Renamed(renaming: Renaming, oldName: string, newName: string): Renaming {
    map n | n in renaming :: if renaming[n] == oldName then newName else renaming[n]
  }

  lemma {:induction false} RenamedType(existing: set<string>, before: Env, renaming: Renaming, oldName: string,
                                       newName: string, t: Type)
    requires renaming.Keys == before.Keys && oldName !in existing && KnownType(existing, before, t)
    ensures RenameType(map[oldName := newName], RenameType(renaming, t))
         == RenameType(Renamed(renaming, oldName, newName), t)
  {
    match t
    case ArrayOf(element) => RenamedType(existing, before, renaming, oldName, newName, element);
    case Nullable(inner) => RenamedType(existing, before, renaming, oldName, newName, inner);
    case _ =>
  }

  lemma RenamedObject(existing: set<string>, before: Env, renaming: Renaming, oldName: string, newName: string,
                      o: ObjectType)
    requires renaming.Keys == before.Keys && oldName !in existing
    requires forall f :: f in o ==> KnownType(existing, before, o[f])
    ensures RenameObject(map[oldName := newName], RenameObject(renaming, o))
         == RenameObject(Renamed(renaming, oldName, newName), o)
  {
    forall f | f in o
      ensures RenameType(map[oldName := newName], RenameType(renaming, o[f]))
           == RenameType(Renamed(renaming, oldName, newName), o[f])
    {
      RenamedType(existing, before, renaming, oldName, newName, o[f]);
    }
  }

  /** `after` results from one renaming step. */
  ghost predicate RenamedOnce(before: Env, after: Env, oldName: string, newName: string) {
    && oldName in before && newName !in before
    && after.Keys == before.Keys - {oldName} + {newName}
    && forall n :: n in before ==>
         after[if n == oldName then newName else n] == RenameObject(map[oldName := newName], before[n])
  }

  lemma RenamedEnv(existing: set<string>, before: Env, after: Env, after': Env, renaming: Renaming, oldName: string,
                   newName: string)
    requires IsRenaming(renaming, before, after) && Closed(existing, before)
    requires RenamedOnce(after, after', oldName, newName) && oldName !in existing
    ensures IsRenaming(Renamed(renaming, oldName, newName), before, after')
  {
    var renaming' := Renamed(renaming, oldName, newName);
    RenamedValues(renaming, oldName, newName);
    forall n | n in before ensures after'[renaming'[n]] == RenameObject(renaming', before[n]) {
      assert renaming[n] in after;
      RenamedObject(existing, before, renaming, oldName, newName, before[n]);
    }
  }

  lemma RenamedValues(renaming: Renaming, oldName: string, newName: string)
    requires oldName in renaming.Values
    ensures Renamed(renaming, oldName, newName).Values == renaming.Values - {oldName} + {newName}
  {
    var renaming' := Renamed(renaming, oldName, newName);
    forall m | m in renaming.Values - {oldName} + {newName} ensures m in renaming'.Values {
      var n :| n in renaming && renaming[n] == (if m in renaming.Values && m != oldName then m else oldName);
      assert renaming'[n] == m;
    }
  }

  /** Renaming does not change what a type unfolds to. */
  lemma {:induction false} UnfoldRenamed(depth: nat, existing: set<string>, before: Env, after: Env,
                                         renaming: Renaming, t: Type)
    requires IsRenaming(renaming, before, after) && Closed(existing, before) && KnownType(existing, before, t)
    requires before.Keys !! existing && after.Keys !! existing
    ensures Unfold(depth, existing, after, RenameType(renaming, t)) == Unfold(depth, existing, before, t)
    decreases depth, 1, t
  {
    match t
    case ArrayOf(element) => UnfoldRenamed(depth, existing, before, after, renaming, element);
    case Nullable(inner) => UnfoldRenamed(depth, existing, before, after, renaming, inner);
    case Object(name) => UnfoldRenamedName(depth, existing, before, after, renaming, name);
    case Predicate(name) => UnfoldRenamedName(depth, existing, before, after, renaming, name);
    case _ =>
  }

  lemma {:induction false} UnfoldRenamedName(depth: nat, existing: set<string>, before: Env, after: Env,
                                             renaming: Renaming, name: string)
    requires IsRenaming(renaming, before, after) && Closed(existing, before)
    requires name in existing || name in before
    requires before.Keys !! existing && after.Keys !! existing
    ensures UnfoldName(depth, existing, after, RenameName(renaming, name)) == UnfoldName(depth, existing, before, name)
    decreases depth, 0
  {
    if name !in existing && depth > 0 {
      var o, o' := before[name], after[renaming[name]];
      forall f | f in o
        ensures Unfold(depth - 1, existing, after, o'[f]) == Unfold(depth - 1, existing, before, o[f])
      {
        UnfoldRenamed(depth - 1, existing, before, after, renaming, o[f]);
      }
      assert (map f | f in o' :: Unfold(depth - 1, existing, after, o'[f]))
          == (map f | f in o :: Unfold(depth - 1, existing, before, o[f]));
    }
  }

  // ----- pruning -----

  /** The added types among a set of names. */
  function Kept(added: Env, names: set<string>): Env {
    map n | n in added && n in names :: added[n]
  }

  /** The names are closed under references of added types, and known. */
  ghost predicate SelfContained(existing: set<string>, added: Env, names: set<string>) {
    && (forall n :: n in names ==> n in existing || n in added)
    && (forall a, b :: a in names && Step(existing, added, a, b) ==> b in names)
  }

  /** Dropping types outside a self-contained set of names does not change what types unfold to. */
  lemma {:induction false} UnfoldKept(depth: nat, existing: set<string>, added: Env, names: set<string>, t: Type)
    requires SelfContained(existing, added, names)
    requires Ref(t).Some? ==> Ref(t).value in names
    ensures Unfold(depth, existing, Kept(added, names), t) == Unfold(depth, existing, added, t)
    decreases depth, 1, t
  {
    match t
    case ArrayOf(element) => UnfoldKept(depth, existing, added, names, element);
    case Nullable(inner) => UnfoldKept(depth, existing, added, names, inner);
    case Object(name) => UnfoldKeptName(depth, existing, added, names, name);
    case Predicate(name) => UnfoldKeptName(depth, existing, added, names, name);
    case _ =>
  }

  lemma {:induction false} UnfoldKeptName(depth: nat, existing: set<string>, added: Env, names: set<string>,
                                          name: string)
    requires SelfContained(existing, added, names) && name in names
    ensures UnfoldName(depth, existing, Kept(added, names), name) == UnfoldName(depth, existing, added, name)
    decreases depth, 0
  {
    if name !in existing && depth > 0 {
      var o := added[name];
      forall f | f in o
        ensures Unfold(depth - 1, existing, Kept(added, names), o[f]) == Unfold(depth - 1, existing, added, o[f])
      {
        assert Ref(o[f]).Some? ==> Step(existing, added, name, Ref(o[f]).value);
        UnfoldKept(depth - 1, existing, added, names, o[f]);
      }
    }
  }

  ghost predicate RenamedFrom(renaming: Renaming, refs0: seq<Type>, types0: Env, refs: seq<Type>, types: Env) {
    && IsRenaming(renaming, types0, types) && refs == RenameTypes(renaming, refs0)
    && forall n :: n in renaming ==> Counter(renaming[n]) <= Counter(n)
  }

  lemma RenameStep(existing: set<string>, refs0: seq<Type>, types0: Env, refs: seq<Type>, types: Env, types': Env,
                   renaming: Renaming, oldName: string, newName: string)
    requires Closed(existing, types0) && oldName !in existing
    requires forall i :: 0 <= i < |refs0| ==> KnownType(existing, types0, refs0[i])
    requires RenamedFrom(renaming, refs0, types0, refs, types) && RenamedOnce(types, types', oldName, newName)
    requires Counter(newName) <= Counter(oldName)
    ensures RenamedFrom(Renamed(renaming, oldName, newName), refs0, types0,
                        RenameTypes(map[oldName := newName], refs), types')
  {
    RenamedEnv(existing, types0, types, types', renaming, oldName, newName);
    RenamedRefs(existing, types0, renaming, oldName, newName, refs0);
  }

  /** The unique name for the root has a smaller counter. */
  predicate Shrinks(taken: set<string>, name: string) {
    Counter(UniqueOf(taken, Root(name))) < Counter(name)
  }

  /** Only then it replaces the name. */
  function Simplified(taken: set<string>, name: string): string {
    if Shrinks(taken, name) then UniqueOf(taken, Root(name)) else name
  }

  /** One name is simplified, in the reference types and in the object types. */
  ghost predicate SimplifiedBy(existing: set<string>, refs: seq<Type>, types: Env, name: string, newName: string,
                               refs': seq<Type>, types': Env) {
    && newName == Simplified(existing + types.Keys, name)
    && if newName == name then refs' == refs && types' == types
       else RenamedOnce(types, types', name, newName) && refs' == RenameTypes(map[name := newName], refs)
  }

  /** Removes the numeric suffix of one name if a smaller counter is free. */
  method SimplifyTypeName(refs0: seq<Type>, existing: set<string>, types0: Env, name: string)
      returns (refs: seq<Type>, types: Env)
    requires name in types0
    ensures exists newName :: SimplifiedBy(existing, refs0, types0, name, newName, refs, types)
  {
    refs, types := refs0, types0;
    var (root, count) := ParseCounterSuffix(name);
    var simplified := UniqueTypeName(existing, types.Keys, root);
    var (_, newCount) := ParseCounterSuffix(simplified);
    assert Counter(simplified) == newCount && Counter(name) == count;
    ghost var newName := if newCount < count then simplified else name;
    if newCount < count {
      refs, types := RenameObjectType(refs, types, name, simplified);
    }
    assert SimplifiedBy(existing, refs0, types0, name, newName, refs, types);
  }

  /** The names are simplified one after the other. */
  ghost predicate SimplifiedRun(existing: set<string>, refs0: seq<Type>, types0: Env, order: seq<string>,
                                refs: seq<Type>, types: Env)
    decreases |order|
  {
    if order == [] then refs == refs0 && types == types0
    else
      exists refs1, types1, newName
        {:trigger SimplifiedBy(existing, refs1, types1, order[|order| - 1], newName, refs, types)} ::
        && SimplifiedRun(existing, refs0, types0, order[..|order| - 1], refs1, types1)
        && SimplifiedBy(existing, refs1, types1, order[|order| - 1], newName, refs, types)
  }

  /** The order lists each of the names once, but for the given rest. */
  predicate Covers(order: seq<string>, rest: set<string>, names: set<string>) {
    (set n | n in order) + rest == names && |order| + |rest| == |names|
  }

  /** Every name is simplified once. */
  ghost predicate SimplifiedAll(existing: set<string>, refs0: seq<Type>, types0: Env, refs: seq<Type>, types: Env) {
    exists order :: SimplifiedRun(existing, refs0, types0, order, refs, types) && Covers(order, {}, types0.Keys)
  }

  lemma SimplifiedOneMore(existing: set<string>, refs0: seq<Type>, types0: Env, order: seq<string>, refs: seq<Type>,
                          types: Env, name: string, newName: string, refs': seq<Type>, types': Env)
    requires SimplifiedRun(existing, refs0, types0, order, refs, types)
    requires SimplifiedBy(existing, refs, types, name, newName, refs', types')
    ensures SimplifiedRun(existing, refs0, types0, order + [name], refs', types')
  {
    var longer := order + [name];
    assert longer[..|longer| - 1] == order && longer[|longer| - 1] == name;
  }

  lemma CoversStep(order: seq<string>, rest: set<string>, names: set<string>, name: string)
    requires Covers(order, rest, names) && name in rest
    ensures Covers(order + [name], rest - {name}, names)
  {
    forall n | n in names ensures n in (set m | m in order + [name]) + (rest - {name}) {
      assert n in order || n in rest;
    }
  }

  // ----- names shared with existing types -----

  /** The added types that do not share the name of an existing one. Only these are ever looked into. */
  function Own(existing: set<string>, types: Env): Env {
    map n | n in types && n !in existing :: types[n]
  }

  /** No type that shares the name of an existing one is renamed. */
  predicate SharedKept(existing: set<string>, types0: Env, types: Env) {
    types0.Keys * existing <= types.Keys
  }

  predicate Unmentioned(refs: seq<Type>, types: Env, name: string) {
    && (forall i :: 0 <= i < |refs| ==> Ref(refs[i]) != Some(name))
    && (forall n, f :: n in types && f in types[n] ==> Ref(types[n][f]) != Some(name))
  }

  /** What was renamed away although it shared the name of an existing type is mentioned no more. */
  predicate LostUnmentioned(existing: set<string>, types0: Env, refs: seq<Type>, types: Env) {
    forall n :: n in types0 && n in existing && n !in types ==> Unmentioned(refs, types, n)
  }

  lemma RenamedAway(refs: seq<Type>, types: Env, types': Env, oldName: string, newName: string, name: string)
    requires RenamedOnce(types, types', oldName, newName)
    requires name != newName && (name == oldName || Unmentioned(refs, types, name))
    ensures Unmentioned(RenameTypes(map[oldName := newName], refs), types', name)
  {
    var renaming := map[oldName := newName];
    forall i | 0 <= i < |refs| ensures Ref(RenameType(renaming, refs[i])) != Some(name) {
      RefRenamed(renaming, refs[i]);
    }
    forall n, f | n in types' && f in types'[n] ensures Ref(types'[n][f]) != Some(name) {
      var m := if n == newName then oldName else n;
      assert types'[n] == RenameObject(renaming, types[m]);
      RefRenamed(renaming, types[m][f]);
    }
  }

  /** What holds while names are simplified, `rest` of them still to come. */
  ghost predicate Simplifying(existing: set<string>, refs0: seq<Type>, types0: Env, refs: seq<Type>, types: Env,
                              renaming: Renaming, order: seq<string>, rest: set<string>) {
    && |refs| == |refs0| && rest <= types.Keys && types.Keys * existing <= types0.Keys
    && (SharedKept(existing, types0, types) ==>
          RenamedFrom(renaming, refs0, Own(existing, types0), refs, Own(existing, types)))
    && LostUnmentioned(existing, types0, refs, types)
    && SimplifiedRun(existing, refs0, types0, order, refs, types)
    && Covers(order, rest, types0.Keys)
  }

  lemma SimplifyingStep(existing: set<string>, refs0: seq<Type>, types0: Env, refs: seq<Type>, types: Env,
                        renaming: Renaming, order: seq<string>, rest: set<string>, name: string, newName: string,
                        refs': seq<Type>, types': Env)
    requires Closed(existing, Own(existing, types0))
    requires forall i :: 0 <= i < |refs0| ==> KnownType(existing, Own(existing, types0), refs0[i])
    requires Simplifying(existing, refs0, types0, refs, types, renaming, order, rest) && name in rest
    requires SimplifiedBy(existing, refs, types, name, newName, refs', types')
    ensures Simplifying(existing, refs0, types0, refs', types',
                        if newName == name then renaming else Renamed(renaming, name, newName),
                        order + [name], rest - {name})
  {
    SimplifiedOneMore(existing, refs0, types0, order, refs, types, name, newName, refs', types');
    CoversStep(order, rest, types0.Keys, name);
    SimplifiedFresh(existing + types.Keys, name, newName);
    if SharedKept(existing, types0, types') {
      RenamedFromStep(existing, refs0, types0, refs, types, renaming, name, newName, refs', types');
    }
    LostStep(existing, refs, types0, types, name, newName, refs', types');
  }

  lemma LostStep(existing: set<string>, refs: seq<Type>, types0: Env, types: Env, name: string, newName: string,
                 refs': seq<Type>, types': Env)
    requires LostUnmentioned(existing, types0, refs, types) && types.Keys * existing <= types0.Keys
    requires if newName == name then refs' == refs && types' == types
             else RenamedOnce(types, types', name, newName) && refs' == RenameTypes(map[name := newName], refs)
    requires newName == name || newName !in existing
    ensures LostUnmentioned(existing, types0, refs', types') && types'.Keys * existing <= types0.Keys
    ensures |refs'| == |refs| && types.Keys - {name} <= types'.Keys
  {
    if newName != name {
      forall n | n in types0 && n in existing && n !in types' ensures Unmentioned(refs', types', n) {
        LostName(existing, refs, types0, types, name, newName, types', n);
      }
    }
  }

  lemma LostName(existing: set<string>, refs: seq<Type>, types0: Env, types: Env, name: string, newName: string,
                 types': Env, n: string)
    requires LostUnmentioned(existing, types0, refs, types) && RenamedOnce(types, types', name, newName)
    requires newName !in existing && n in types0 && n in existing && n !in types'
    ensures Unmentioned(RenameTypes(map[name := newName], refs), types', n)
  {
    RenamedAway(refs, types, types', name, newName, n);
  }

  lemma OwnRenamedOnce(existing: set<string>, types: Env, types': Env, name: string, newName: string)
    requires RenamedOnce(types, types', name, newName) && name !in existing && newName !in existing
    ensures RenamedOnce(Own(existing, types), Own(existing, types'), name, newName)
  {
  }

  lemma RenamedFromStep(existing: set<string>, refs0: seq<Type>, types0: Env, refs: seq<Type>, types: Env,
                        renaming: Renaming, name: string, newName: string, refs': seq<Type>, types': Env)
    requires Closed(existing, Own(existing, types0)) && name in types && types.Keys * existing <= types0.Keys
    requires forall i :: 0 <= i < |refs0| ==> KnownType(existing, Own(existing, types0), refs0[i])
    requires SharedKept(existing, types0, types')
    requires SharedKept(existing, types0, types) ==>
      RenamedFrom(renaming, refs0, Own(existing, types0), refs, Own(existing, types))
    requires SimplifiedBy(existing, refs, types, name, newName, refs', types')
    ensures var renamed := if newName == name then renaming else Renamed(renaming, name, newName);
      RenamedFrom(renamed, refs0, Own(existing, types0), refs', Own(existing, types'))
  {
    SimplifiedFresh(existing + types.Keys, name, newName);
    if newName != name {
      assert name !in existing;
      OwnRenamedOnce(existing, types, types', name, newName);
      RenameStep(existing, refs0, Own(existing, types0), refs, Own(existing, types), Own(existing, types'),
                 renaming, name, newName);
    }
  }

  lemma SimplifiedFresh(taken: set<string>, name: string, newName: string)
    requires newName == Simplified(taken, name)
    ensures newName == name || (newName !in taken && Counter(newName) < Counter(name))
  {
  }

  /** All names in turn, in any order. If no shared name is renamed, the types change by an injective renaming only. */
  method SimplifyTypeNames(refs0: seq<Type>, existing: set<string>, types0: Env)
      returns (refs: seq<Type>, types: Env, ghost renaming: Renaming)
    requires Closed(existing, Own(existing, types0))
    requires forall i :: 0 <= i < |refs0| ==> KnownType(existing, Own(existing, types0), refs0[i])
    ensures SharedKept(existing, types0, types) ==>
      RenamedFrom(renaming, refs0, Own(existing, types0), refs, Own(existing, types))
    ensures |refs| == |refs0| && types.Keys * existing <= types0.Keys && LostUnmentioned(existing, types0, refs, types)
    ensures SimplifiedAll(existing, refs0, types0, refs, types)
  {
    refs, types := refs0, types0;
    renaming := map n | n in Own(existing, types0) :: n;
    IdentityRenaming(refs0, Own(existing, types0));
    var names := types0.Keys;
    ghost var order: seq<string> := [];
    while names != {}
      invariant Simplifying(existing, refs0, types0, refs, types, renaming, order, names)
    {
      var name :| name in names;
      ghost var refsBefore, before := refs, types;
      refs, types := SimplifyTypeName(refs, existing, types, name);
      ghost var newName :| SimplifiedBy(existing, refsBefore, before, name, newName, refs, types);
      SimplifyingStep(existing, refs0, types0, refsBefore, before, renaming, order, names, name, newName, refs, types);
      renaming := if newName == name then renaming else Renamed(renaming, name, newName);
      order, names := order + [name], names - {name};
    }
  }

  lemma RenamedRefs(existing: set<string>, before: Env, renaming: Renaming, oldName: string, newName: string,
                    refs: seq<Type>)
    requires renaming.Keys == before.Keys && oldName !in existing
    requires forall i :: 0 <= i < |refs| ==> KnownType(existing, before, refs[i])
    ensures RenameTypes(map[oldName := newName], RenameTypes(renaming, refs))
         == RenameTypes(Renamed(renaming, oldName, newName), refs)
  {
    forall i | 0 <= i < |refs|
      ensures RenameType(map[oldName := newName], RenameType(renaming, refs[i]))
           == RenameType(Renamed(renaming, oldName, newName), refs[i])
    {
      RenamedType(existing, before, renaming, oldName, newName, refs[i]);
    }
  }

  lemma {:induction false} IdentityType(renaming: Renaming, t: Type)
    requires forall n :: n in renaming ==> renaming[n] == n
    ensures RenameType(renaming, t) == t
  {
    match t
    case ArrayOf(element) => IdentityType(renaming, element);
    case Nullable(inner) => IdentityType(renaming, inner);
    case _ =>
  }

  lemma IdentityRenaming(refs: seq<Type>, types: Env)
    ensures var renaming := map n | n in types :: n;
      IsRenaming(renaming, types, types) && RenameTypes(renaming, refs) == refs
  {
    var renaming := map n | n in types :: n;
    forall t: Type ensures RenameType(renaming, t) == t {
      IdentityType(renaming, t);
    }
  }

  /** The added types some reference type needs. */
  ghost function RequiredTypes(existing: set<string>, added: Env, refs: seq<Type>): Env {
    map n | n in added && Required(existing, added, refs, n) :: added[n]
  }

  /** Every reference type unfolds to what it unfolded to. */
  ghost predicate SameStructure(existing: set<string>, added: Env, refs0: seq<Type>, pruned: Env, refs: seq<Type>) {
    |refs| == |refs0| && forall i, depth :: 0 <= i < |refs| ==>
      Unfold(depth, existing, pruned, refs[i]) == Unfold(depth, existing, added, refs0[i])
  }

  /**
   What pruning has produced: the required types under a renaming. The structure is the same exactly if
   no required type that shares the name of an existing one is renamed.
   */
  ghost predicate Pruned(existing: set<string>, added: Env, refs0: seq<Type>, refs: seq<Type>, pruned: Env) {
    var required := RequiredTypes(existing, added, refs0);
    && |refs| == |refs0| && pruned.Keys * existing <= added.Keys
    && SimplifiedAll(existing, refs0, required, refs, pruned)
    && (SameStructure(existing, added, refs0, pruned, refs) <==> SharedKept(existing, required, pruned))
    && (SharedKept(existing, required, pruned) ==>
          && (exists renaming :: RenamedFrom(renaming, refs0, Own(existing, required), refs, Own(existing, pruned)))
          && Closed(existing, Own(existing, pruned))
          && forall i :: 0 <= i < |refs| ==> KnownType(existing, Own(existing, pruned), refs[i]))
  }

  lemma {:induction false} RefRenamed(renaming: Renaming, t: Type)
    ensures Ref(RenameType(renaming, t))
         == match Ref(t) case Some(name) => Some(RenameName(renaming, name)) case None => None
  {
    match t
    case ArrayOf(element) => RefRenamed(renaming, element);
    case Nullable(inner) => RefRenamed(renaming, inner);
    case _ =>
  }

  lemma RenamedClosed(existing: set<string>, before: Env, after: Env, renaming: Renaming, refs: seq<Type>)
    requires IsRenaming(renaming, before, after) && Closed(existing, before)
    requires forall i :: 0 <= i < |refs| ==> KnownType(existing, before, refs[i])
    ensures Closed(existing, after)
    ensures forall i :: 0 <= i < |refs| ==> KnownType(existing, after, RenameTypes(renaming, refs)[i])
  {
    forall m, f | m in after && f in after[m] ensures KnownType(existing, after, after[m][f]) {
      var n :| n in before && renaming[n] == m;
      RefRenamed(renaming, before[n][f]);
    }
    forall i | 0 <= i < |refs| ensures KnownType(existing, after, RenameTypes(renaming, refs)[i]) {
      RefRenamed(renaming, refs[i]);
    }
  }

  /** Types that share the name of an existing one are not looked into. */
  lemma {:induction false} UnfoldOwn(depth: nat, existing: set<string>, added: Env, t: Type)
    ensures Unfold(depth, existing, Own(existing, added), t) == Unfold(depth, existing, added, t)
    decreases depth, 1, t
  {
    match t
    case ArrayOf(element) => UnfoldOwn(depth, existing, added, element);
    case Nullable(inner) => UnfoldOwn(depth, existing, added, inner);
    case Object(name) => UnfoldOwnName(depth, existing, added, name);
    case Predicate(name) => UnfoldOwnName(depth, existing, added, name);
    case _ =>
  }

  lemma {:induction false} UnfoldOwnName(depth: nat, existing: set<string>, added: Env, name: string)
    ensures UnfoldName(depth, existing, Own(existing, added), name) == UnfoldName(depth, existing, added, name)
    decreases depth, 0
  {
    if name !in existing && name in added && depth > 0 {
      forall f | f in added[name]
        ensures Unfold(depth - 1, existing, Own(existing, added), added[name][f])
             == Unfold(depth - 1, existing, added, added[name][f])
      {
        UnfoldOwn(depth - 1, existing, added, added[name][f]);
      }
    }
  }

  lemma KeptSameStructure(existing: set<string>, added: Env, found: set<string>, refs0: seq<Type>, refs: seq<Type>,
                          pruned: Env, renaming: Renaming)
    requires SelfContained(existing, added, found) && Closed(existing, Own(existing, Kept(added, found)))
    requires forall i :: 0 <= i < |refs0| ==>
      && KnownType(existing, Own(existing, Kept(added, found)), refs0[i])
      && (Ref(refs0[i]).Some? ==> Ref(refs0[i]).value in found)
    requires RenamedFrom(renaming, refs0, Own(existing, Kept(added, found)), refs, Own(existing, pruned))
    ensures SameStructure(existing, added, refs0, pruned, refs)
  {
    var kept := Kept(added, found);
    forall i, depth: nat | 0 <= i < |refs|
      ensures Unfold(depth, existing, pruned, refs[i]) == Unfold(depth, existing, added, refs0[i])
    {
      UnfoldOwn(depth, existing, pruned, refs[i]);
      UnfoldOwn(depth, existing, kept, refs0[i]);
      UnfoldRenamed(depth, existing, Own(existing, kept), Own(existing, pruned), renaming, refs0[i]);
      UnfoldKept(depth, existing, added, found, refs0[i]);
    }
  }

  /** Types that unfold alike refer to names that do. */
  lemma {:induction false} UnfoldAlike(existing: set<string>, types: Env, types': Env, t: Type, t': Type)
    requires forall depth :: Unfold(depth, existing, types', t') == Unfold(depth, existing, types, t)
    requires Ref(t).Some?
    ensures Ref(t').Some?
    ensures forall depth ::
      UnfoldName(depth, existing, types', Ref(t').value) == UnfoldName(depth, existing, types, Ref(t).value)
  {
    assert Unfold(0, existing, types', t') == Unfold(0, existing, types, t);
    forall depth: nat
      ensures t.ArrayOf? ==> Unfold(depth, existing, types', t'.element) == Unfold(depth, existing, types, t.element)
      ensures t.Nullable? ==> Unfold(depth, existing, types', t'.inner) == Unfold(depth, existing, types, t.inner)
      ensures t.Object? || t.Predicate? ==>
        UnfoldName(depth, existing, types', Ref(t').value) == UnfoldName(depth, existing, types, Ref(t).value)
    {
      assert Unfold(depth, existing, types', t') == Unfold(depth, existing, types, t);
    }
    match t
    case ArrayOf(element) => UnfoldAlike(existing, types, types', element, t'.element);
    case Nullable(inner) => UnfoldAlike(existing, types, types', inner, t'.inner);
    case _ =>
  }

  /** What unfolds alike leads to the same existing types. */
  lemma {:induction false} LeadsToExisting(existing: set<string>, types: Env, types': Env, path: seq<string>,
                                           name: string)
    requires IsPath(existing, types, path) && path[|path| - 1] in existing
    requires forall depth :: UnfoldName(depth, existing, types', name) == UnfoldName(depth, existing, types, path[0])
    ensures name == path[|path| - 1] || exists n, f ::
      n in types' && f in types'[n] && Ref(types'[n][f]) == Some(path[|path| - 1])
  {
    assert UnfoldName(0, existing, types', name) == UnfoldName(0, existing, types, path[0]);
    if |path| > 1 {
      assert Step(existing, types, path[0], path[1]);
      var f :| f in types[path[0]] && Ref(types[path[0]][f]) == Some(path[1]);
      forall depth: nat
        ensures name !in existing && name in types' && f in types'[name]
          && Unfold(depth, existing, types', types'[name][f]) == Unfold(depth, existing, types, types[path[0]][f])
      {
        FieldAlike(depth, existing, types, types', path[0], name, f);
      }
      FieldAlike(0, existing, types, types', path[0], name, f);
      UnfoldAlike(existing, types, types', types[path[0]][f], types'[name][f]);
      var rest := path[1..];
      forall i | 0 <= i < |rest| - 1 ensures Step(existing, types, rest[i], rest[i + 1]) {
        assert Step(existing, types, path[i + 1], path[i + 2]);
      }
      LeadsToExisting(existing, types, types', rest, Ref(types'[name][f]).value);
    }
  }

  lemma FieldAlike(depth: nat, existing: set<string>, types: Env, types': Env, name: string, name': string, f: string)
    requires name !in existing && name in types && f in types[name]
    requires UnfoldName(depth + 1, existing, types', name') == UnfoldName(depth + 1, existing, types, name)
    ensures name' !in existing && name' in types' && f in types'[name']
    ensures Unfold(depth, existing, types', types'[name'][f]) == Unfold(depth, existing, types, types[name][f])
  {
    var fields := map g | g in types[name] :: Unfold(depth, existing, types, types[name][g]);
    assert UnfoldName(depth + 1, existing, types, name) == FieldsTree(fields);
    assert name' !in existing && name' in types';
    var fields' := map g | g in types'[name'] :: Unfold(depth, existing, types', types'[name'][g]);
    assert UnfoldName(depth + 1, existing, types', name') == FieldsTree(fields');
    assert f in fields && fields == fields' && fields[f] == fields'[f];
  }

  /** Once a required type that shares an existing name is renamed, some reference type unfolds to something else. */
  lemma LostChangesStructure(existing: set<string>, added: Env, refs0: seq<Type>, pruned: Env, refs: seq<Type>,
                             name: string)
    requires name in existing && Required(existing, added, refs0, name) && Unmentioned(refs, pruned, name)
    ensures !SameStructure(existing, added, refs0, pruned, refs)
  {
    if SameStructure(existing, added, refs0, pruned, refs) {
      var i :| 0 <= i < |refs0| && Ref(refs0[i]).Some? && Reachable(existing, added, Ref(refs0[i]).value, name);
      var path :| IsPath(existing, added, path) && path[0] == Ref(refs0[i]).value && path[|path| - 1] == name;
      UnfoldAlike(existing, added, pruned, refs0[i], refs[i]);
      LeadsToExisting(existing, added, pruned, path, Ref(refs[i]).value);
    }
  }

  method PruneObjectTypes(refs0: seq<Type>, existing: set<string>, added: Env, ghost rank: map<string, nat>)
      returns (unknown: Option<string>, refs: seq<Type>, pruned: Env)
    requires Ranked(existing, added, rank)
    ensures unknown.None? ==> Pruned(existing, added, refs0, refs, pruned)
    ensures unknown.None? && PlainlyNamed(existing, added, refs0) ==>
      NoneShrinks(existing, RequiredTypes(existing, added, refs0)) ==>
        SameStructure(existing, added, refs0, pruned, refs)
    ensures unknown.None? <==>
      forall i :: 0 <= i < |refs0| && Ref(refs0[i]).Some? ==> AllKnown(existing, added, Ref(refs0[i]).value)
  {
    refs, pruned := refs0, map[];
    var found: set<string> := {};
    for i := 0 to |refs0|
      invariant forall n :: n in found <==> exists j ::
        0 <= j < i && Ref(refs0[j]).Some? && Reachable(existing, added, Ref(refs0[j]).value, n)
      invariant forall j :: 0 <= j < i && Ref(refs0[j]).Some? ==> AllKnown(existing, added, Ref(refs0[j]).value)
    {
      unknown, found := CollectNamesFromType(existing, added, found, refs0[i], rank);
      if unknown.Some? {
        return;
      }
    }
    unknown := None;
    assert FoundFrom(existing, added, refs0, found);
    FoundContained(existing, added, refs0, found);
    KeptClosed(existing, added, found);
    KeptRequired(existing, added, refs0, found);
    ghost var renaming;
    refs, pruned, renaming := SimplifyTypeNames(refs0, existing, Kept(added, found));
    PruningDone(existing, added, found, refs0, refs, pruned, renaming);
    if PlainlyNamed(existing, added, refs0) {
      StructureExact(existing, added, refs0);
    }
  }

  lemma PruningDone(existing: set<string>, added: Env, found: set<string>, refs0: seq<Type>, refs: seq<Type>,
                    pruned: Env, renaming: Renaming)
    requires FoundFrom(existing, added, refs0, found) && SelfContained(existing, added, found)
    requires Kept(added, found) == RequiredTypes(existing, added, refs0)
    requires Closed(existing, Own(existing, Kept(added, found)))
    requires forall i :: 0 <= i < |refs0| && Ref(refs0[i]).Some? ==> Ref(refs0[i]).value in found
    requires SharedKept(existing, Kept(added, found), pruned) ==>
      RenamedFrom(renaming, refs0, Own(existing, Kept(added, found)), refs, Own(existing, pruned))
    requires pruned.Keys * existing <= Kept(added, found).Keys && |refs| == |refs0|
    requires LostUnmentioned(existing, Kept(added, found), refs, pruned)
    requires SimplifiedAll(existing, refs0, Kept(added, found), refs, pruned)
    ensures Pruned(existing, added, refs0, refs, pruned)
  {
    var kept := Kept(added, found);
    if SharedKept(existing, kept, pruned) {
      KeptSameStructure(existing, added, found, refs0, refs, pruned, renaming);
      RenamedClosed(existing, Own(existing, kept), Own(existing, pruned), renaming, refs0);
    } else {
      SomeLost(existing, added, found, refs0, refs, pruned);
    }
  }

  lemma SomeLost(existing: set<string>, added: Env, found: set<string>, refs0: seq<Type>, refs: seq<Type>, pruned: Env)
    requires FoundFrom(existing, added, refs0, found) && !SharedKept(existing, Kept(added, found), pruned)
    requires LostUnmentioned(existing, Kept(added, found), refs, pruned)
    ensures !SameStructure(existing, added, refs0, pruned, refs)
  {
    var name :| name in Kept(added, found) && name in existing && name !in pruned;
    LostChangesStructure(existing, added, refs0, pruned, refs, name);
  }

  /** `found` holds what is reachable from the reference types. */
  ghost predicate FoundFrom(existing: set<string>, added: Env, refs: seq<Type>, found: set<string>) {
    forall n :: n in found <==> Required(existing, added, refs, n)
  }

  lemma KeptRequired(existing: set<string>, added: Env, refs: seq<Type>, found: set<string>)
    requires FoundFrom(existing, added, refs, found)
    ensures Kept(added, found) == RequiredTypes(existing, added, refs)
  {
    var kept, required := Kept(added, found), RequiredTypes(existing, added, refs);
    assert forall n :: n in kept <==> n in required;
    assert forall n :: n in kept ==> kept[n] == required[n];
  }

  lemma FoundContained(existing: set<string>, added: Env, refs: seq<Type>, found: set<string>)
    requires FoundFrom(existing, added, refs, found)
    requires forall j :: 0 <= j < |refs| && Ref(refs[j]).Some? ==> AllKnown(existing, added, Ref(refs[j]).value)
    ensures SelfContained(existing, added, found)
    ensures forall j :: 0 <= j < |refs| && Ref(refs[j]).Some? ==> Ref(refs[j]).value in found
  {
    forall a, b | a in found && Step(existing, added, a, b) ensures b in found {
      var j :| 0 <= j < |refs| && Ref(refs[j]).Some? && Reachable(existing, added, Ref(refs[j]).value, a);
      ReachableExtended(existing, added, Ref(refs[j]).value, a, b);
    }
    forall j | 0 <= j < |refs| && Ref(refs[j]).Some? ensures Ref(refs[j]).value in found {
      ReachableSelf(existing, added, Ref(refs[j]).value);
    }
  }

  lemma KeptClosed(existing: set<string>, added: Env, found: set<string>)
    requires SelfContained(existing, added, found)
    ensures Closed(existing, Own(existing, Kept(added, found)))
  {
    var kept := Own(existing, Kept(added, found));
    forall n, f | n in kept && f in kept[n] ensures KnownType(existing, kept, kept[n][f]) {
      if Ref(kept[n][f]).Some? {
        assert Step(existing, added, n, Ref(kept[n][f]).value);
      }
    }
  }

  // ----- a shared name that is renamed -----

  lemma OnlyItself(existing: set<string>, added: Env, name: string)
    requires name in existing
    ensures forall n :: Reachable(existing, added, name, n) <==> n == name
  {
    ReachableSelf(existing, added, name);
    forall n | Reachable(existing, added, name, n) ensures n == name {
      if n != name { ReachableFirstStep(existing, added, name, n); }
    }
  }

  lemma RootFree(taken: set<string>, name: string)
    requires ParseCounterSuffix(Root(name)) == (Root(name), 0) && Counter(name) > 0 && Root(name) !in taken
    ensures Simplified(taken, name) == Root(name) && Root(name) != name
  {
  }

  lemma SoleOrder(order: seq<string>, name: string)
    requires Covers(order, {}, {name})
    ensures order == [name]
  {
    assert |order| == 1 && order[0] in (set n | n in order);
  }

  lemma SharedNameLost(existing: set<string>, types0: Env, refs0: seq<Type>, refs: seq<Type>, types: Env, name: string)
    requires SimplifiedAll(existing, refs0, types0, refs, types)
    requires types0.Keys == {name} && name in existing && Root(name) !in existing
    requires ParseCounterSuffix(Root(name)) == (Root(name), 0) && Counter(name) > 0
    ensures name !in types
  {
    var order :| SimplifiedRun(existing, refs0, types0, order, refs, types) && Covers(order, {}, types0.Keys);
    SoleOrder(order, name);
    var newName := OneStep(existing, refs0, types0, order, refs, types);
    RootFree(existing + types0.Keys, name);
  }

  lemma OneStep(existing: set<string>, refs0: seq<Type>, types0: Env, order: seq<string>, refs: seq<Type>, types: Env)
      returns (newName: string)
    requires SimplifiedRun(existing, refs0, types0, order, refs, types) && |order| == 1
    ensures SimplifiedBy(existing, refs0, types0, order[0], newName, refs, types)
  {
    var refs1, types1, newName1 :| SimplifiedRun(existing, refs0, types0, order[..|order| - 1], refs1, types1)
      && SimplifiedBy(existing, refs1, types1, order[|order| - 1], newName1, refs, types);
    newName := newName1;
  }

  /**
   Pruning renames an added type that shares the name of an existing one and could have a smaller
   counter, as `T_1`, and a reference to the name no longer means the existing type.
   */
  lemma SharedNamePruned(existing: set<string>, added: Env, refs0: seq<Type>, refs: seq<Type>, pruned: Env,
                         name: string)
    requires Pruned(existing, added, refs0, refs, pruned)
    requires existing == {name} && added.Keys == {name} && refs0 == [Object(name)]
    requires ParseCounterSuffix(Root(name)) == (Root(name), 0) && Counter(name) > 0
    ensures !SameStructure(existing, added, refs0, pruned, refs)
  {
    var required := RequiredTypes(existing, added, refs0);
    OnlyItself(existing, added, name);
    assert Ref(refs0[0]) == Some(name);
    assert required.Keys == {name};
    assert Root(name) != name;
    SharedNameLost(existing, required, refs0, refs, pruned, name);
    assert name in required.Keys * existing;
  }

  // ----- when shared names are kept, told from the input -----

  /** The name and its first numbers are taken, up to the counter. */
  predicate TakenBelow(taken: set<string>, root: string, counter: nat) {
    root in taken && forall j :: 0 < j < counter ==> Numbered(root, j) in taken
  }

  /** The root of the name has no counter itself. */
  predicate PlainRoot(name: string) {
    ParseCounterSuffix(Root(name)) == (Root(name), 0)
  }

  lemma NumberedParses(root: string, k: nat)
    requires '\n' !in root && k < COUNTER_LIMIT
    ensures ParseCounterSuffix(Numbered(root, k)) == (root, k)
  {
    DecimalRoundTrip(k);
    ParsedSuffix(root, ToDecimal(k));
  }

  lemma CountedRoot(name: string)
    requires Counter(name) > 0
    ensures '\n' !in Root(name) && Counter(name) < COUNTER_LIMIT
  {
  }

  /** The guard of the renaming, for a name whose root has no counter: some smaller name of the root is free. */
  lemma ShrinksExact(taken: set<string>, name: string)
    requires PlainRoot(name) && Counter(name) > 0 && |taken| + 1 < COUNTER_LIMIT
    ensures Shrinks(taken, name) <==> !TakenBelow(taken, Root(name), Counter(name))
  {
    var root := Root(name);
    CountedRoot(name);
    if root in taken {
      var m := FirstFree(taken, root, 1);
      NumberedParses(root, m);
    }
  }

  /** What blocks a name is not renamed itself. */
  lemma BlockersStay(taken: set<string>, root: string, counter: nat, j: nat)
    requires TakenBelow(taken, root, counter) && 0 < j < counter < COUNTER_LIMIT && |taken| + 1 < COUNTER_LIMIT
    requires '\n' !in root && ParseCounterSuffix(root) == (root, 0)
    ensures !Shrinks(taken, Numbered(root, j))
  {
    NumberedParses(root, j);
    ShrinksExact(taken, Numbered(root, j));
  }

  lemma {:induction false} RenamedKeys(existing: set<string>, refs0: seq<Type>, types0: Env, order: seq<string>,
                                       refs: seq<Type>, types: Env)
    requires SimplifiedRun(existing, refs0, types0, order, refs, types)
    ensures |types.Keys| <= |types0.Keys|
    decreases |order|
  {
    if order != [] {
      var refs1, types1, newName :| SimplifiedRun(existing, refs0, types0, order[..|order| - 1], refs1, types1)
        && SimplifiedBy(existing, refs1, types1, order[|order| - 1], newName, refs, types);
      RenamedKeys(existing, refs0, types0, order[..|order| - 1], refs1, types1);
      var name := order[|order| - 1];
      if newName != name {
        assert types.Keys == types1.Keys - {name} + {newName};
        assert |types1.Keys - {name}| == |types1.Keys| - 1;
      }
    }
  }

  lemma UnionSize(a: set<string>, b: set<string>)
    ensures |a + b| <= |a| + |b|
  {
    assert a + b == a + (b - a);
  }

  /** While all smaller names of its root are taken, neither they nor a shared name are renamed. */
  lemma {:induction false} StaysTaken(existing: set<string>, refs0: seq<Type>, types0: Env, order: seq<string>,
                                      refs: seq<Type>, types: Env, name: string)
    requires SimplifiedRun(existing, refs0, types0, order, refs, types)
    requires |existing| + |types0.Keys| + 1 < COUNTER_LIMIT
    requires name in types0 && name in existing && PlainRoot(name) && Counter(name) > 0
    requires TakenBelow(existing + types0.Keys, Root(name), Counter(name))
    ensures name in types && TakenBelow(existing + types.Keys, Root(name), Counter(name))
    decreases |order|
  {
    if order != [] {
      var refs1, types1, newName :| SimplifiedRun(existing, refs0, types0, order[..|order| - 1], refs1, types1)
        && SimplifiedBy(existing, refs1, types1, order[|order| - 1], newName, refs, types);
      StaysTaken(existing, refs0, types0, order[..|order| - 1], refs1, types1, name);
      RenamedKeys(existing, refs0, types0, order[..|order| - 1], refs1, types1);
      UnionSize(existing, types1.Keys);
      StepStays(existing, refs1, types1, order[|order| - 1], newName, refs, types, name);
    }
  }

  lemma StepStays(existing: set<string>, refs: seq<Type>, types: Env, renamed: string, newName: string,
                  refs': seq<Type>, types': Env, name: string)
    requires SimplifiedBy(existing, refs, types, renamed, newName, refs', types')
    requires |existing + types.Keys| + 1 < COUNTER_LIMIT
    requires name in types && PlainRoot(name) && Counter(name) > 0
    requires TakenBelow(existing + types.Keys, Root(name), Counter(name))
    ensures name in types' && TakenBelow(existing + types'.Keys, Root(name), Counter(name))
  {
    var taken, root := existing + types.Keys, Root(name);
    ShrinksExact(taken, name);
    CountedRoot(name);
    forall j | 0 < j < Counter(name) ensures !Shrinks(taken, Numbered(root, j)) {
      BlockersStay(taken, root, Counter(name), j);
    }
  }

  /** There are fewer names than counters, and the roots of shared names have no counter. */
  ghost predicate PlainlyNamed(existing: set<string>, added: Env, refs0: seq<Type>) {
    && |existing| + |added.Keys| + 1 < COUNTER_LIMIT
    && forall n :: n in RequiredTypes(existing, added, refs0) && n in existing ==> PlainRoot(n)
  }

  // ----- runs exist, and every run is one of the method -----

  lemma SomeStep(existing: set<string>, refs: seq<Type>, types: Env, name: string)
      returns (newName: string, refs': seq<Type>, types': Env)
    requires name in types
    ensures SimplifiedBy(existing, refs, types, name, newName, refs', types')
  {
    newName := Simplified(existing + types.Keys, name);
    refs', types' := refs, types;
    if newName != name {
      refs' := RenameTypes(map[name := newName], refs);
      types' := map n | n in types.Keys - {name} + {newName} ::
        RenameObject(map[name := newName], types[if n == newName then name else n]);
    }
  }

  /** A run on some of the names can be completed; a shared name that is gone stays gone. */
  lemma {:induction false} Completed(existing: set<string>, refs0: seq<Type>, types0: Env, order: seq<string>,
                                     refs: seq<Type>, types: Env, rest: set<string>, lost: string)
      returns (refs': seq<Type>, types': Env)
    requires SimplifiedRun(existing, refs0, types0, order, refs, types) && Covers(order, rest, types0.Keys)
    requires rest <= types.Keys && lost in existing && lost !in types
    ensures SimplifiedAll(existing, refs0, types0, refs', types') && lost !in types'
    decreases |rest|
  {
    refs', types' := refs, types;
    if rest != {} {
      var name :| name in rest;
      var newName, refs1, types1 := SomeStep(existing, refs, types, name);
      SimplifiedOneMore(existing, refs0, types0, order, refs, types, name, newName, refs1, types1);
      CoversStep(order, rest, types0.Keys, name);
      SimplifiedFresh(existing + types.Keys, name, newName);
      refs', types' := Completed(existing, refs0, types0, order + [name], refs1, types1, rest - {name}, lost);
    }
  }

  /** A shared name that can have a smaller counter is renamed in some order. */
  lemma LostFirst(existing: set<string>, refs0: seq<Type>, types0: Env, name: string)
      returns (refs: seq<Type>, types: Env)
    requires name in types0 && name in existing && Shrinks(existing + types0.Keys, name)
    ensures SimplifiedAll(existing, refs0, types0, refs, types) && name !in types
  {
    var newName, refs1, types1 := SomeStep(existing, refs0, types0, name);
    SimplifiedFresh(existing + types0.Keys, name, newName);
    SimplifiedOneMore(existing, refs0, types0, [], refs0, types0, name, newName, refs1, types1);
    assert Covers([], types0.Keys, types0.Keys);
    CoversStep([], types0.Keys, types0.Keys, name);
    refs, types := Completed(existing, refs0, types0, [] + [name], refs1, types1, types0.Keys - {name}, name);
  }

  /** No shared name can have a smaller counter. */
  ghost predicate NoneShrinks(existing: set<string>, types: Env) {
    forall n :: n in types && n in existing ==> !Shrinks(existing + types.Keys, n)
  }

  /**
   For shared names whose roots have no counter: in every order all of them are kept, exactly if at the
   start the guard of the renaming holds for none.
   */
  lemma SharedKeptExact(existing: set<string>, refs0: seq<Type>, types0: Env)
    requires |existing| + |types0.Keys| + 1 < COUNTER_LIMIT
    requires forall n :: n in types0 && n in existing ==> PlainRoot(n)
    ensures (forall refs, types ::
               SimplifiedAll(existing, refs0, types0, refs, types) ==> SharedKept(existing, types0, types))
       <==> NoneShrinks(existing, types0)
  {
    if NoneShrinks(existing, types0) {
      forall refs, types | SimplifiedAll(existing, refs0, types0, refs, types)
        ensures SharedKept(existing, types0, types)
      {
        KeptInRun(existing, refs0, types0, refs, types);
      }
    } else {
      ShrinkingLost(existing, refs0, types0);
    }
  }

  /** Whatever the roots, a shared name for which the guard holds at the start is lost in some order. */
  lemma ShrinkingLost(existing: set<string>, refs0: seq<Type>, types0: Env)
    requires !NoneShrinks(existing, types0)
    ensures exists refs, types ::
      SimplifiedAll(existing, refs0, types0, refs, types) && !SharedKept(existing, types0, types)
  {
    var name :| name in types0 && name in existing && Shrinks(existing + types0.Keys, name);
    var refs, types := LostFirst(existing, refs0, types0, name);
    assert !SharedKept(existing, types0, types);
  }

  lemma KeptInRun(existing: set<string>, refs0: seq<Type>, types0: Env, refs: seq<Type>, types: Env)
    requires |existing| + |types0.Keys| + 1 < COUNTER_LIMIT && NoneShrinks(existing, types0)
    requires forall n :: n in types0 && n in existing ==> PlainRoot(n)
    requires SimplifiedAll(existing, refs0, types0, refs, types)
    ensures SharedKept(existing, types0, types)
  {
    var order :| SimplifiedRun(existing, refs0, types0, order, refs, types) && Covers(order, {}, types0.Keys);
    UnionSize(existing, types0.Keys);
    forall n | n in types0 && n in existing ensures n in types {
      if Counter(n) > 0 {
        ShrinksExact(existing + types0.Keys, n);
        StaysTaken(existing, refs0, types0, order, refs, types, n);
      } else {
        NeverRenamed(existing, refs0, types0, order, refs, types, n);
      }
    }
  }

  /** A name without a counter is not renamed. */
  lemma {:induction false} NeverRenamed(existing: set<string>, refs0: seq<Type>, types0: Env, order: seq<string>,
                                        refs: seq<Type>, types: Env, name: string)
    requires SimplifiedRun(existing, refs0, types0, order, refs, types)
    requires name in types0 && Counter(name) == 0
    ensures name in types
    decreases |order|
  {
    if order != [] {
      var refs1, types1, newName :| SimplifiedRun(existing, refs0, types0, order[..|order| - 1], refs1, types1)
        && SimplifiedBy(existing, refs1, types1, order[|order| - 1], newName, refs, types);
      NeverRenamed(existing, refs0, types0, order[..|order| - 1], refs1, types1, name);
    }
  }

  // ----- names with several counters -----

  /** The names that could replace the name, in place of their being free, are names of existing types. */
  predicate BlockedByExisting(existing: set<string>, name: string) {
    var (root, counter) := ParseCounterSuffix(Root(name));
    root in existing && forall k :: counter < k < Counter(name) ==> Numbered(Root(name), k) in existing
  }

  lemma BlockedKeeps(existing: set<string>, taken: set<string>, name: string)
    requires existing <= taken && BlockedByExisting(existing, name) && Counter(name) > 0
    requires Counter(Root(name)) + 1 + |taken| < COUNTER_LIMIT
    ensures !Shrinks(taken, name)
  {
    CountedRoot(name);
    BlockedCounter(taken, Root(name), Counter(name));
  }

  /** With the smaller names taken the unique name has at least the counter. */
  lemma BlockedCounter(taken: set<string>, desired: string, counter: nat)
    requires var (root, start) := ParseCounterSuffix(desired);
      && root in taken && start + 1 + |taken| < COUNTER_LIMIT
      && forall k :: start < k < counter ==> Numbered(desired, k) in taken
    requires '\n' !in desired
    ensures Counter(UniqueOf(taken, desired)) >= counter
  {
    var m := FirstFree(taken, desired, Counter(desired) + 1);
    NumberedParses(desired, m);
  }

  /** Whatever its root, a name that is blocked by existing names is never renamed. */
  lemma {:induction false} BlockedStays(existing: set<string>, refs0: seq<Type>, types0: Env, order: seq<string>,
                                        refs: seq<Type>, types: Env, name: string)
    requires SimplifiedRun(existing, refs0, types0, order, refs, types) && name in types0
    requires Counter(name) > 0 ==>
      && BlockedByExisting(existing, name)
      && Counter(Root(name)) + 1 + |existing| + |types0.Keys| < COUNTER_LIMIT
    ensures name in types
    decreases |order|
  {
    if order != [] {
      var refs1, types1, newName :| SimplifiedRun(existing, refs0, types0, order[..|order| - 1], refs1, types1)
        && SimplifiedBy(existing, refs1, types1, order[|order| - 1], newName, refs, types);
      BlockedStays(existing, refs0, types0, order[..|order| - 1], refs1, types1, name);
      RenamedKeys(existing, refs0, types0, order[..|order| - 1], refs1, types1);
      UnionSize(existing, types1.Keys);
      if Counter(name) > 0 {
        BlockedKeeps(existing, existing + types1.Keys, name);
      }
    }
  }

  // ----- when the structure is kept, told from the input -----

  lemma CoversInit(order: seq<string>, rest: set<string>, names: set<string>)
    requires order != [] && Covers(order, rest, names)
    ensures Covers(order[..|order| - 1], rest + {order[|order| - 1]}, names) && order[|order| - 1] !in rest
    ensures order[..|order| - 1] + [order[|order| - 1]] == order
    ensures rest + {order[|order| - 1]} - {order[|order| - 1]} == rest
  {
    var init, last := order[..|order| - 1], order[|order| - 1];
    assert order == init + [last];
    assert (set n | n in order) == (set n | n in init) + {last};
    SeqSetSize(init);
    var before := set n | n in init;
    UnionSize(before, rest);
    assert last in rest ==> names == before + rest;
  }

  lemma {:induction false} SeqSetSize(s: seq<string>)
    ensures |set n | n in s| <= |s|
  {
    if s != [] {
      SeqSetSize(s[1..]);
      assert s == [s[0]] + s[1..];
      assert (set n | n in s) == {s[0]} + (set n | n in s[1..]);
    }
  }

  /** What the method keeps invariant holds of every run. */
  lemma {:induction false} RunSimplifying(existing: set<string>, refs0: seq<Type>, types0: Env, order: seq<string>,
                                          refs: seq<Type>, types: Env, rest: set<string>)
      returns (renaming: Renaming)
    requires Closed(existing, Own(existing, types0))
    requires forall i :: 0 <= i < |refs0| ==> KnownType(existing, Own(existing, types0), refs0[i])
    requires SimplifiedRun(existing, refs0, types0, order, refs, types) && Covers(order, rest, types0.Keys)
    ensures Simplifying(existing, refs0, types0, refs, types, renaming, order, rest)
    decreases |order|
  {
    if order == [] {
      renaming := map n | n in Own(existing, types0) :: n;
      IdentityRenaming(refs0, Own(existing, types0));
    } else {
      var init, name := order[..|order| - 1], order[|order| - 1];
      var refs1, types1, newName :| SimplifiedRun(existing, refs0, types0, init, refs1, types1)
        && SimplifiedBy(existing, refs1, types1, name, newName, refs, types);
      CoversInit(order, rest, types0.Keys);
      var before := RunSimplifying(existing, refs0, types0, init, refs1, types1, rest + {name});
      SimplifyingStep(existing, refs0, types0, refs1, types1, before, init, rest + {name}, name, newName, refs, types);
      renaming := if newName == name then before else Renamed(before, name, newName);
    }
  }

  /** Every way to simplify the names of the required types is a pruning. */
  lemma OutcomePruned(existing: set<string>, added: Env, refs0: seq<Type>, refs: seq<Type>, pruned: Env)
    requires forall i :: 0 <= i < |refs0| && Ref(refs0[i]).Some? ==> AllKnown(existing, added, Ref(refs0[i]).value)
    requires SimplifiedAll(existing, refs0, RequiredTypes(existing, added, refs0), refs, pruned)
    ensures Pruned(existing, added, refs0, refs, pruned)
  {
    var found := RequiredNames(existing, added, refs0);
    var kept := Kept(added, found);
    forall i | 0 <= i < |refs0| ensures KnownType(existing, Own(existing, kept), refs0[i]) {
      assert Ref(refs0[i]).Some? ==> Ref(refs0[i]).value in found;
    }
    var renaming := AllSimplified(existing, refs0, kept, refs, pruned);
    PruningDone(existing, added, found, refs0, refs, pruned, renaming);
  }

  lemma AllSimplified(existing: set<string>, refs0: seq<Type>, types0: Env, refs: seq<Type>, types: Env)
      returns (renaming: Renaming)
    requires Closed(existing, Own(existing, types0)) && SimplifiedAll(existing, refs0, types0, refs, types)
    requires forall i :: 0 <= i < |refs0| ==> KnownType(existing, Own(existing, types0), refs0[i])
    ensures SharedKept(existing, types0, types) ==>
      RenamedFrom(renaming, refs0, Own(existing, types0), refs, Own(existing, types))
    ensures |refs| == |refs0| && types.Keys * existing <= types0.Keys && LostUnmentioned(existing, types0, refs, types)
  {
    var order :| SimplifiedRun(existing, refs0, types0, order, refs, types) && Covers(order, {}, types0.Keys);
    renaming := RunSimplifying(existing, refs0, types0, order, refs, types, {});
  }

  lemma RequiredNames(existing: set<string>, added: Env, refs0: seq<Type>) returns (found: set<string>)
    requires forall i :: 0 <= i < |refs0| && Ref(refs0[i]).Some? ==> AllKnown(existing, added, Ref(refs0[i]).value)
    ensures FoundFrom(existing, added, refs0, found) && SelfContained(existing, added, found)
    ensures Kept(added, found) == RequiredTypes(existing, added, refs0)
    ensures Closed(existing, Own(existing, Kept(added, found)))
    ensures forall i :: 0 <= i < |refs0| && Ref(refs0[i]).Some? ==> Ref(refs0[i]).value in found
  {
    found := set n | n in existing + added.Keys && Required(existing, added, refs0, n);
    assert FoundFrom(existing, added, refs0, found);
    FoundContained(existing, added, refs0, found);
    KeptClosed(existing, added, found);
    KeptRequired(existing, added, refs0, found);
  }

  /**
   Pruning keeps what the reference types mean, in whatever order the names are simplified, exactly if at
   the start the guard of the renaming holds for no required type that shares the name of an existing one.
   */
  lemma StructureExact(existing: set<string>, added: Env, refs0: seq<Type>)
    requires forall i :: 0 <= i < |refs0| && Ref(refs0[i]).Some? ==> AllKnown(existing, added, Ref(refs0[i]).value)
    requires PlainlyNamed(existing, added, refs0)
    ensures (forall refs, pruned :: Pruned(existing, added, refs0, refs, pruned) ==>
               SameStructure(existing, added, refs0, pruned, refs))
       <==> NoneShrinks(existing, RequiredTypes(existing, added, refs0))
  {
    var required := RequiredTypes(existing, added, refs0);
    RequiredFewer(existing, added, refs0);
    SharedKeptExact(existing, refs0, required);
    if !NoneShrinks(existing, required) {
      var refs, pruned :| SimplifiedAll(existing, refs0, required, refs, pruned)
        && !SharedKept(existing, required, pruned);
      OutcomePruned(existing, added, refs0, refs, pruned);
      assert !SameStructure(existing, added, refs0, pruned, refs);
    }
  }

  lemma RequiredFewer(existing: set<string>, added: Env, refs0: seq<Type>)
    ensures |RequiredTypes(existing, added, refs0).Keys| <= |added.Keys|
  {
    var rest := added.Keys - RequiredTypes(existing, added, refs0).Keys;
    assert RequiredTypes(existing, added, refs0).Keys + rest == added.Keys;
  }
}
