/**
 Tracing finds every origin. A column is traced to a field exactly if, with nothing filtered away, it
 shows that field on all databases and is not null on all of them.
 */
module OriginsComplete {
  import opened Options
  import opened Text
  import opened Values
  import opened Relations
  import opened NormalizeJoins
  import opened ColumnOrigins

  // ----- trees without filters -----

  /** No union is empty, as tracing looks at the first branch. */
  predicate Branching(r: Relation) {
    match r
    case From(_, _) => true
    case Filter(input, _) => Branching(input)
    case Sort(input, _) => Branching(input)
    case Paginate(input, _, _) => Branching(input)
    case Project(input, _) => Branching(input)
    case Join(left, right, _, _) => Branching(left) && Branching(right)
    case Aggregate(input, _, _) => Branching(input)
    case Window(input, _) => Branching(input)
    case Union(relations) => relations != [] && forall i :: 0 <= i < |relations| ==> Branching(relations[i])
  }

  /** The tree without what only drops rows, and with the first branch of every union. */
  function Unfiltered(r: Relation): Relation {
    match r
    case From(_, _) => r
    case Filter(input, _) => Unfiltered(input)
    case Sort(input, keys) => Sort(Unfiltered(input), keys)
    case Paginate(input, _, _) => Unfiltered(input)
    case Project(input, exprs) => Project(Unfiltered(input), exprs)
    case Join(left, right, on, kind) =>
      if kind.LeftSemi? || kind.LeftAnti? then Unfiltered(left)
      else if kind.RightSemi? || kind.RightAnti? then Unfiltered(right)
      else Join(Unfiltered(left), Unfiltered(right), on, kind)
    case Aggregate(input, groupBy, aggregates) => Aggregate(Unfiltered(input), groupBy, aggregates)
    case Window(input, exprs) => Window(Unfiltered(input), exprs)
    case Union(relations) => if relations == [] then r else Unfiltered(relations[0])
  }

  predicate Bare(r: Relation) {
    match r
    case From(_, _) => true
    case Sort(input, _) => Bare(input)
    case Project(input, _) => Bare(input)
    case Join(left, right, _, kind) =>
      Bare(left) && Bare(right) && (kind.Inner? || kind.Left? || kind.Right? || kind.Full?)
    case Aggregate(input, _, _) => Bare(input)
    case Window(input, _) => Bare(input)
    case _ => false
  }

  lemma {:induction false} BareConsistent(r: Relation)
    requires Bare(r)
    ensures ArityConsistent(r) && Traceable(r)
  {
    match r
    case From(_, _) =>
    case Sort(input, _) => BareConsistent(input);
    case Project(input, _) => BareConsistent(input);
    case Join(left, right, _, _) => BareConsistent(left); BareConsistent(right);
    case Aggregate(input, _, _) => BareConsistent(input);
    case Window(input, _) => BareConsistent(input);
  }

  lemma {:induction false} UnfilteredBare(r: Relation)
    requires Branching(r)
    ensures Bare(Unfiltered(r)) && ColumnCount(Unfiltered(r)) == ColumnCount(r)
    ensures Undotted(r) ==> Undotted(Unfiltered(r))
  {
    match r
    case From(_, _) =>
    case Filter(input, _) => UnfilteredBare(input);
    case Sort(input, _) => UnfilteredBare(input);
    case Paginate(input, _, _) => UnfilteredBare(input);
    case Project(input, _) => UnfilteredBare(input);
    case Join(left, right, _, _) => UnfilteredBare(left); UnfilteredBare(right);
    case Aggregate(input, _, _) => UnfilteredBare(input);
    case Window(input, _) => UnfilteredBare(input);
    case Union(relations) => UnfilteredBare(relations[0]);
  }

  /** Dropping rows changes no origin. */
  lemma {:induction false} UnfilteredOrigin(r: Relation, index: nat)
    requires Branching(r)
    ensures TraceColumn(Unfiltered(r), index) == TraceColumn(r, index)
    decreases r, 0
  {
    match r
    case From(_, _) =>
    case Filter(input, _) => UnfilteredOrigin(input, index);
    case Sort(input, _) => UnfilteredOrigin(input, index);
    case Paginate(input, _, _) => UnfilteredOrigin(input, index);
    case Project(input, exprs) => if index < |exprs| { UnfilteredExpr(input, exprs[index]); }
    case Join(left, right, _, kind) =>
      UnfilteredBare(left);
      UnfilteredOrigin(left, index);
      UnfilteredOrigin(right, if kind.RightSemi? || kind.RightAnti? || index < ColumnCount(left) then index
                              else index - ColumnCount(left));
    case Aggregate(input, groupBy, _) => if index < |groupBy| { UnfilteredExpr(input, groupBy[index]); }
    case Window(input, _) => UnfilteredBare(input); UnfilteredOrigin(input, index);
    case Union(relations) => UnfilteredOrigin(relations[0], index);
  }

  lemma {:induction false} UnfilteredExpr(input: Relation, e: Expr)
    requires Branching(input)
    ensures TraceExpr(Unfiltered(input), e) == TraceExpr(input, e)
    decreases input, 1, e
  {
    match e
    case Column(index) => UnfilteredOrigin(input, index);
    case GetField(column, _) => UnfilteredExpr(input, column);
    case _ =>
  }

  // ----- databases with one document a collection -----

  /** All values compare equal, and all that the passes do not look into is one value. */
  function Flat(k: Value): Semantics {
    Semantics((a: Value, b: Value) => 0, (name: string, args: seq<Value>) => k, (tag: nat) => k,
              (e: Expr, rows: seq<Row>) => k, (e: Expr, rows: seq<Row>, i: nat) => k)
  }

  lemma FlatOrdered(k: Value)
    ensures Ordered(Flat(k))
  {
  }

  type Documents = string -> Value

  function Single(d: Documents): Database {
    c => [d(c)]
  }

  lemma AllMatch(k: Value, on: seq<JoinOn>, l: Row, r: Row)
    ensures RightMatches(Flat(k), on, l, [r]) == [r] && LeftMatches(Flat(k), on, [l], r) == [l]
  {
    assert OnMatch(Flat(k), on, l, r);
    assert [r][1..] == [] && [l][1..] == [];
    assert RightMatches(Flat(k), on, l, []) == [] && LeftMatches(Flat(k), on, [], r) == [];
  }

  lemma SoleJoin(k: Value, on: seq<JoinOn>, kind: JoinType, lc: nat, rc: nat, l: Row, r: Row)
    requires kind.Inner? || kind.Left? || kind.Right? || kind.Full?
    ensures JoinRows(Flat(k), on, kind, lc, rc, [l], [r]) == [l + r]
  {
    var sem := Flat(k);
    AllMatch(k, on, l, r);
    assert AppendEach(l, [r]) == [l + r] && PrependEach([l], r) == [l + r];
    assert [l][1..] == [] && [r][1..] == [];
    assert JoinLeft(sem, on, Left, rc, [l], [r]) == [l + r] + JoinLeft(sem, on, Left, rc, [], [r]) == [l + r];
    assert kind.Inner? ==> JoinLeft(sem, on, kind, rc, [l], [r]) == [l + r] + JoinLeft(sem, on, kind, rc, [], [r]);
    assert kind.Right? ==> JoinRight(sem, on, kind, lc, [l], [r]) == [l + r] + JoinRight(sem, on, kind, lc, [l], []);
    assert Unmatched(sem, on, lc, [l], [r]) == Unmatched(sem, on, lc, [l], []) == [];
  }

  /** A tree without filters has one row over such a database. */
  lemma {:induction false} OneRow(k: Value, d: Documents, r: Relation)
    requires Bare(r)
    ensures |Rows(Flat(k), Single(d), None, r)| == 1
    ensures |Rows(Flat(k), Single(d), None, r)[0]| == ColumnCount(r)
  {
    var sem, db := Flat(k), Single(d);
    BareConsistent(r);
    RowWidth(sem, db, None, r);
    match r
    case From(_, _) =>
    case Sort(input, keys) =>
      OneRow(k, d, input);
      var rows := Rows(sem, db, None, input);
      assert rows[1..] == [] && SortRows(sem, keys, []) == [];
    case Project(input, _) => OneRow(k, d, input);
    case Join(left, right, on, kind) =>
      OneRow(k, d, left);
      OneRow(k, d, right);
      var lefts, rights := Rows(sem, db, None, left), Rows(sem, db, None, right);
      assert lefts == [lefts[0]] && rights == [rights[0]];
      SoleJoin(k, on, kind, ColumnCount(left), ColumnCount(right), lefts[0], rights[0]);
    case Aggregate(input, groupBy, aggregates) =>
      OneRow(k, d, input);
      var rows := Rows(sem, db, None, input);
      assert rows[1..] == [] && ByKey(sem, groupBy, EvalAll(sem, groupBy, rows[0]), false, rows[1..]) == [];
      assert GroupRows(sem, groupBy, aggregates, []) == [];
    case Window(input, _) => OneRow(k, d, input);
  }

  function SoleRowOf(k: Value, d: Documents, r: Relation): Row
    requires Bare(r)
  {
    OneRow(k, d, r);
    Rows(Flat(k), Single(d), None, r)[0]
  }

  /** How the row is composed of the row of the input, or of both inputs. */
  lemma SoleRowStep(k: Value, d: Documents, r: Relation)
    requires Bare(r) && !r.From?
    ensures var row := SoleRowOf(k, d, r);
      match r
      case Sort(input, _) => row == SoleRowOf(k, d, input)
      case Project(input, exprs) => row == EvalAll(Flat(k), exprs, SoleRowOf(k, d, input))
      case Join(left, right, _, _) => row == SoleRowOf(k, d, left) + SoleRowOf(k, d, right)
      case Aggregate(input, groupBy, aggregates) =>
        |row| == |groupBy| + |aggregates| &&
        (forall i :: 0 <= i < |groupBy| ==> row[i] == Eval(Flat(k), groupBy[i], SoleRowOf(k, d, input))) &&
        (forall i :: |groupBy| <= i < |row| ==> row[i] == k)
      case Window(input, exprs) =>
        && |row| == ColumnCount(r) && row[..ColumnCount(input)] == SoleRowOf(k, d, input)
        && (forall i :: ColumnCount(input) <= i < |row| ==> row[i] == k)
      case _ => false
  {
    var sem, db, row := Flat(k), Single(d), SoleRowOf(k, d, r);
    OneRow(k, d, r);
    match r
    case Sort(input, keys) =>
      OneRow(k, d, input);
      SortMember(sem, keys, Rows(sem, db, None, input), row);
    case Project(input, _) => OneRow(k, d, input);
    case Join(left, right, on, kind) =>
      OneRow(k, d, left);
      OneRow(k, d, right);
      var lefts, rights := Rows(sem, db, None, left), Rows(sem, db, None, right);
      assert lefts == [lefts[0]] && rights == [rights[0]];
      SoleJoin(k, on, kind, ColumnCount(left), ColumnCount(right), lefts[0], rights[0]);
    case Aggregate(input, groupBy, aggregates) =>
      OneRow(k, d, input);
    case Window(input, _) => OneRow(k, d, input);
  }

  // ----- what a field's column shows -----

  lemma {:induction false} FieldShown(k: Value, d: Documents, r: Relation, i: nat)
    requires Bare(r) && Undotted(r) && TraceColumn(r, i).FromField?
    ensures var origin, row := TraceColumn(r, i), SoleRowOf(k, d, r);
      i < |row| && row[i] == AtPath(d(origin.collection), origin.path)
    decreases r, 0
  {
    OneRow(k, d, r);
    match r
    case From(_, _) =>
      assert SoleRowOf(k, d, r) == DocRow(r.columns, d(r.collection));
    case Sort(input, _) =>
      FieldShown(k, d, input, i);
      SoleRowStep(k, d, r);
    case Project(input, exprs) =>
      FieldExprShown(k, d, input, exprs[i]);
      SoleRowStep(k, d, r);
    case Join(left, right, _, _) =>
      var lc := ColumnCount(left);
      if i < lc { FieldShown(k, d, left, i); } else { FieldShown(k, d, right, i - lc); }
      OneRow(k, d, left);
      SoleRowStep(k, d, r);
    case Aggregate(input, groupBy, _) =>
      FieldExprShown(k, d, input, groupBy[i]);
      SoleRowStep(k, d, r);
    case Window(input, _) =>
      FieldShown(k, d, input, i);
      SoleRowStep(k, d, r);
      assert SoleRowOf(k, d, r)[i] == SoleRowOf(k, d, r)[..ColumnCount(input)][i];
  }

  lemma {:induction false} FieldExprShown(k: Value, d: Documents, input: Relation, e: Expr)
    requires Bare(input) && Undotted(input) && UndottedExpr(e) && TraceExpr(input, e).FromField?
    ensures var origin := TraceExpr(input, e);
      Eval(Flat(k), e, SoleRowOf(k, d, input)) == AtPath(d(origin.collection), origin.path)
    decreases input, 1, e
  {
    match e
    case Column(index) => FieldShown(k, d, input, index);
    case GetField(column, field) =>
      FieldExprShown(k, d, input, column);
      var origin := TraceExpr(input, column);
      AtPathField(d(origin.collection), origin.path, field);
  }

  // ----- what a computed column shows -----

  /** Below these names the column is null in every row on every database. */
  ghost predicate AlwaysNull(r: Relation, i: nat, names: seq<string>) {
    forall sem, db, row :: row in Rows(sem, db, None, r) && i < |row| ==> Lookup(row[i], names) == Null
  }

  ghost predicate ExprAlwaysNull(input: Relation, e: Expr, names: seq<string>) {
    forall sem, db, row :: row in Rows(sem, db, None, input) ==> Lookup(Eval(sem, e, row), names) == Null
  }

  const NOTHING: Documents := _ => Null

  lemma SortedNull(r: Relation, i: nat, names: seq<string>)
    requires r.Sort? && AlwaysNull(r.input, i, names)
    ensures AlwaysNull(r, i, names)
  {
    forall sem, db, row | row in Rows(sem, db, None, r) && i < |row| ensures Lookup(row[i], names) == Null {
      SortMember(sem, r.keys, Rows(sem, db, None, r.input), row);
    }
  }

  lemma ProjectedNull(r: Relation, i: nat, names: seq<string>)
    requires r.Project? && i < |r.exprs| && ExprAlwaysNull(r.input, r.exprs[i], names)
    ensures AlwaysNull(r, i, names)
  {
    forall sem, db, row | row in Rows(sem, db, None, r) && i < |row| ensures Lookup(row[i], names) == Null {
      var rows := Rows(sem, db, None, r.input);
      var j :| 0 <= j < |rows| && row == EvalAll(sem, r.exprs, rows[j]);
      assert row[i] == Eval(sem, r.exprs[i], rows[j]) && rows[j] in rows;
    }
  }

  lemma GroupedNull(r: Relation, i: nat, names: seq<string>)
    requires r.Aggregate? && i < |r.groupBy| && ExprAlwaysNull(r.input, r.groupBy[i], names)
    ensures AlwaysNull(r, i, names)
  {
    forall sem, db, row | row in Rows(sem, db, None, r) && i < |row| ensures Lookup(row[i], names) == Null {
      var source := GroupMember(sem, r.groupBy, r.aggregates, Rows(sem, db, None, r.input), row);
      assert row[i] == row[..|r.groupBy|][i];
    }
  }

  lemma WindowedNull(r: Relation, i: nat, names: seq<string>)
    requires Bare(r) && r.Window? && i < ColumnCount(r.input) && AlwaysNull(r.input, i, names)
    ensures AlwaysNull(r, i, names)
  {
    BareConsistent(r.input);
    forall sem, db, row | row in Rows(sem, db, None, r) && i < |row| ensures Lookup(row[i], names) == Null {
      var rows := Rows(sem, db, None, r.input);
      RowWidth(sem, db, None, r.input);
      var j :| 0 <= j < |rows| && row == WindowRow(sem, r.exprs, rows, j);
      assert row[i] == row[..|rows[j]|][i];
    }
  }

  /** A computed column can differ from null without any data, or it is always null. */
  ghost predicate Determined(r: Relation, i: nat, names: seq<string>, k: Value)
    requires Bare(r)
  {
    var row := SoleRowOf(k, NOTHING, r);
    i < |row| && (Lookup(row[i], names) != Null || AlwaysNull(r, i, names))
  }

  ghost predicate ExprDetermined(input: Relation, e: Expr, names: seq<string>, k: Value)
    requires Bare(input)
  {
    Lookup(Eval(Flat(k), e, SoleRowOf(k, NOTHING, input)), names) != Null || ExprAlwaysNull(input, e, names)
  }

  lemma {:induction false} ComputedShown(r: Relation, i: nat, names: seq<string>) returns (k: Value)
    requires Bare(r) && TraceColumn(r, i).Computed? && i < ColumnCount(r)
    ensures Determined(r, i, names, k)
    decreases r, 0
  {
    match r
    case Sort(input, _) =>
      k := ComputedShown(input, i, names);
      SoleRowStep(k, NOTHING, r);
      if AlwaysNull(input, i, names) { SortedNull(r, i, names); }
    case Project(input, exprs) =>
      k := ComputedExprShown(input, exprs[i], names);
      SoleRowStep(k, NOTHING, r);
      if ExprAlwaysNull(input, exprs[i], names) { ProjectedNull(r, i, names); }
    case Join(left, right, _, _) =>
      var lc := ColumnCount(left);
      if i < lc { k := ComputedShown(left, i, names); } else { k := ComputedShown(right, i - lc, names); }
      JoinDetermined(r, i, names, k);
    case Aggregate(input, groupBy, _) =>
      if i < |groupBy| {
        k := ComputedExprShown(input, groupBy[i], names);
        if ExprAlwaysNull(input, groupBy[i], names) { GroupedNull(r, i, names); }
      } else {
        k := Nested(names, Int(1));
        LookupNested(names, Int(1));
      }
      SoleRowStep(k, NOTHING, r);
    case Window(input, _) =>
      if i < ColumnCount(input) {
        k := ComputedShown(input, i, names);
        if AlwaysNull(input, i, names) { WindowedNull(r, i, names); }
      } else {
        k := Nested(names, Int(1));
        LookupNested(names, Int(1));
      }
      WindowColumn(k, r, i);
  }

  lemma WindowColumn(k: Value, r: Relation, i: nat)
    requires Bare(r) && r.Window? && i < ColumnCount(r)
    ensures var row, inner := SoleRowOf(k, NOTHING, r), SoleRowOf(k, NOTHING, r.input);
      && |row| == ColumnCount(r) && |inner| == ColumnCount(r.input)
      && row[i] == if i < ColumnCount(r.input) then inner[i] else k
  {
    OneRow(k, NOTHING, r.input);
    SoleRowStep(k, NOTHING, r);
    var row := SoleRowOf(k, NOTHING, r);
    assert i < ColumnCount(r.input) ==> row[i] == row[..ColumnCount(r.input)][i];
  }

  lemma JoinDetermined(r: Relation, i: nat, names: seq<string>, k: Value)
    requires Bare(r) && r.Join? && i < ColumnCount(r)
    requires if i < ColumnCount(r.left) then Determined(r.left, i, names, k)
             else Determined(r.right, i - ColumnCount(r.left), names, k)
    ensures Determined(r, i, names, k)
  {
    var lc := ColumnCount(r.left);
    JoinColumn(k, r, i);
    if if i < lc then AlwaysNull(r.left, i, names) else AlwaysNull(r.right, i - lc, names) {
      JoinedNull(r, i, names);
    }
  }

  lemma JoinColumn(k: Value, r: Relation, i: nat)
    requires Bare(r) && r.Join? && i < ColumnCount(r)
    ensures var row := SoleRowOf(k, NOTHING, r);
      var l, right := SoleRowOf(k, NOTHING, r.left), SoleRowOf(k, NOTHING, r.right);
      && |row| == ColumnCount(r) && |l| == ColumnCount(r.left) && |right| == ColumnCount(r.right)
      && row[i] == if i < ColumnCount(r.left) then l[i] else right[i - ColumnCount(r.left)]
  {
    OneRow(k, NOTHING, r.left);
    OneRow(k, NOTHING, r.right);
    SoleRowStep(k, NOTHING, r);
  }

  lemma JoinedNull(r: Relation, i: nat, names: seq<string>)
    requires Bare(r) && r.Join?
    requires if i < ColumnCount(r.left) then AlwaysNull(r.left, i, names)
             else AlwaysNull(r.right, i - ColumnCount(r.left), names)
    ensures AlwaysNull(r, i, names)
  {
    BareConsistent(r);
    forall sem, db, row | row in Rows(sem, db, None, r) && i < |row| ensures Lookup(row[i], names) == Null {
      JoinedRowNull(sem, db, r, row, i, names);
    }
  }

  ghost predicate NullIn(rows: seq<Row>, i: nat, names: seq<string>) {
    forall row :: row in rows && i < |row| ==> Lookup(row[i], names) == Null
  }

  lemma NullInRows(sem: Semantics, db: Database, r: Relation, i: nat, names: seq<string>)
    requires AlwaysNull(r, i, names)
    ensures NullIn(Rows(sem, db, None, r), i, names)
  {
  }

  lemma JoinedRowNull(sem: Semantics, db: Database, r: Relation, row: Row, i: nat, names: seq<string>)
    requires Bare(r) && r.Join? && ArityConsistent(r) && row in Rows(sem, db, None, r) && i < |row|
    requires if i < ColumnCount(r.left) then AlwaysNull(r.left, i, names)
             else AlwaysNull(r.right, i - ColumnCount(r.left), names)
    ensures Lookup(row[i], names) == Null
  {
    var lc, rc := ColumnCount(r.left), ColumnCount(r.right);
    var lefts, rights := Rows(sem, db, None, r.left), Rows(sem, db, None, r.right);
    RowWidth(sem, db, None, r.left);
    RowWidth(sem, db, None, r.right);
    if i < lc { NullInRows(sem, db, r.left, i, names); } else { NullInRows(sem, db, r.right, i - lc, names); }
    var parts := JoinMember(sem, r.on, r.joinType, lc, rc, lefts, rights, row);
    PartsNull(r.joinType, lc, rc, lefts, rights, row, parts, i, names);
  }

  lemma PartsNull(kind: JoinType, lc: nat, rc: nat, lefts: seq<Row>, rights: seq<Row>, row: Row, parts: Parts, i: nat,
                  names: seq<string>)
    requires Composed(kind, lc, rc, lefts, rights, row, parts) && i < |row|
    requires kind.Inner? || kind.Left? || kind.Right? || kind.Full?
    requires (forall l :: l in lefts ==> |l| == lc) && (forall r :: r in rights ==> |r| == rc)
    requires if i < lc then NullIn(lefts, i, names) else NullIn(rights, i - lc, names)
    ensures Lookup(row[i], names) == Null
  {
    LookupNothing(names);
    if i < lc {
      assert row[i] == if parts.OnlyRight? then Null else parts.l[i];
    } else {
      assert row[i] == if parts.OnlyLeft? then Null else parts.r[i - lc];
    }
  }

  lemma {:induction false} ComputedExprShown(input: Relation, e: Expr, names: seq<string>) returns (k: Value)
    requires Bare(input) && TraceExpr(input, e).Computed?
    ensures ExprDetermined(input, e, names, k)
    decreases input, 1, e
  {
    match e
    case Column(index) =>
      if index < ColumnCount(input) {
        k := ComputedShown(input, index, names);
      } else {
        k := Null;
      }
      ColumnDetermined(input, index, names, k);
    case GetField(column, field) =>
      k := ComputedExprShown(input, column, [field] + names);
      assert ([field] + names)[1..] == names;
    case Lit(_) =>
      k := Nested(names, Int(1));
      LookupNested(names, Int(1));
    case Other(_, _) =>
      k := Nested(names, Int(1));
      LookupNested(names, Int(1));
    case _ =>
      k := Null;
      BooleanDetermined(input, e, names, k);
  }

  lemma ColumnDetermined(input: Relation, index: nat, names: seq<string>, k: Value)
    requires Bare(input) && (index < ColumnCount(input) ==> Determined(input, index, names, k))
    ensures ExprDetermined(input, Column(index), names, k)
  {
    BareConsistent(input);
    LookupNothing(names);
    if index >= ColumnCount(input) || AlwaysNull(input, index, names) {
      forall sem, db, row | row in Rows(sem, db, None, input)
        ensures Lookup(Eval(sem, Column(index), row), names) == Null
      {
        RowWidth(sem, db, None, input);
      }
    }
  }

  lemma BooleanDetermined(input: Relation, e: Expr, names: seq<string>, k: Value)
    requires Bare(input)
    requires e.Compare? || e.And? || e.Or? || e.Not? || e.IsNull? || e.IsNotNull?
    ensures ExprDetermined(input, e, names, k)
  {
    if names != [] {
      LookupNothing(names[1..]);
      forall sem, db, row | row in Rows(sem, db, None, input) ensures Lookup(Eval(sem, e, row), names) == Null {
        assert Eval(sem, e, row).Bool?;
      }
    }
  }

  // ----- completeness -----

  ghost predicate ShownIn(db: Database, row: Row, i: nat, collection: string, path: string) {
    i < |row| && Shows(db(collection), path, true, row[i])
  }

  /** In every row the column shows the field, or a null. */
  ghost predicate ShownEverywhere(r: Relation, i: nat, collection: string, path: string) {
    forall sem, db, row :: Ordered(sem) && row in Rows(sem, db, None, r) ==> ShownIn(db, row, i, collection, path)
  }

  /** On every database the column shows the field, or a null, and on some it is not null. */
  ghost predicate ShowsField(r: Relation, i: nat, collection: string, path: string) {
    ShownEverywhere(r, i, collection, path) && !AlwaysNull(r, i, [])
  }

  /** The document with a one at the field's path, and nothing in other collections. */
  function OnlyField(collection: string, path: string): Documents {
    c => if c == collection then Nested(Split(path), Int(1)) else Null
  }

  lemma OnlyFieldAt(collection: string, path: string, c: string, p: string)
    ensures AtPath(OnlyField(collection, path)(c), p) == Int(1) <==> c == collection && p == path
  {
    PathsDiffer(path, 1, p);
    LookupNothing(Split(p));
  }

  lemma TracedShown(sem: Semantics, db: Database, r: Relation, row: Row, i: nat)
    requires Bare(r) && Undotted(r) && TraceColumn(r, i).FromField? && row in Rows(sem, db, None, r)
    ensures ShownIn(db, row, i, TraceColumn(r, i).collection, TraceColumn(r, i).path)
  {
    BareConsistent(r);
    ColumnProvenance(sem, db, r, row);
    if i >= |row| { NoOriginBeyond(r, i); }
    assert Originates(db, TraceColumn(r, i), Padded(r, i), row[i]);
  }

  lemma TracedEverywhere(r: Relation, i: nat)
    requires Bare(r) && Undotted(r) && TraceColumn(r, i).FromField?
    ensures ShownEverywhere(r, i, TraceColumn(r, i).collection, TraceColumn(r, i).path)
  {
    forall sem, db, row | Ordered(sem) && row in Rows(sem, db, None, r)
      ensures ShownIn(db, row, i, TraceColumn(r, i).collection, TraceColumn(r, i).path)
    {
      TracedShown(sem, db, r, row, i);
    }
  }

  lemma TracedValued(r: Relation, i: nat)
    requires Bare(r) && Undotted(r) && TraceColumn(r, i).FromField?
    ensures !AlwaysNull(r, i, [])
  {
    var FromField(c, p) := TraceColumn(r, i);
    var d := OnlyField(c, p);
    FieldShown(Null, d, r, i);
    OnlyFieldAt(c, p, c, p);
    SoleRowIn(Null, d, r);
  }

  lemma SoleRowIn(k: Value, d: Documents, r: Relation)
    requires Bare(r)
    ensures SoleRowOf(k, d, r) in Rows(Flat(k), Single(d), None, r)
  {
    OneRow(k, d, r);
  }

  /** Without data the column would be null, whatever computes it. */
  lemma ComputedNull(r: Relation, i: nat, collection: string, path: string)
    requires Bare(r) && TraceColumn(r, i).Computed? && ShownEverywhere(r, i, collection, path)
    ensures AlwaysNull(r, i, [])
  {
    if i < ColumnCount(r) {
      var k := ComputedShown(r, i, []);
      SoleRowIn(k, NOTHING, r);
      FlatOrdered(k);
      LookupNothing(Split(path));
      assert ShownIn(Single(NOTHING), SoleRowOf(k, NOTHING, r), i, collection, path);
    } else {
      BareConsistent(r);
      forall sem, db, row | row in Rows(sem, db, None, r) ensures |row| <= i {
        RowWidth(sem, db, None, r);
      }
    }
  }

  lemma ShownTraced(r: Relation, i: nat, collection: string, path: string)
    requires Bare(r) && Undotted(r) && ShowsField(r, i, collection, path)
    ensures TraceColumn(r, i) == FromField(collection, path)
  {
    match TraceColumn(r, i)
    case FromField(c, p) =>
      var d := OnlyField(c, p);
      FieldShown(Null, d, r, i);
      SoleRowIn(Null, d, r);
      FlatOrdered(Null);
      OnlyFieldAt(c, p, c, p);
      OnlyFieldAt(c, p, collection, path);
      assert ShownIn(Single(d), SoleRowOf(Null, d, r), i, collection, path);
    case Computed =>
      ComputedNull(r, i, collection, path);
  }

  /**
   In a tree with undotted nested field names a column is traced to a field exactly if, with nothing
   filtered away, it shows that field on all databases and is not null on all of them.
   */
  lemma TraceExact(r: Relation, i: nat, collection: string, path: string)
    requires Branching(r) && Undotted(r)
    ensures TraceColumn(r, i) == FromField(collection, path) <==> ShowsField(Unfiltered(r), i, collection, path)
  {
    var bare := Unfiltered(r);
    UnfilteredBare(r);
    UnfilteredOrigin(r, i);
    if TraceColumn(bare, i) == FromField(collection, path) { TracedEverywhere(bare, i); TracedValued(bare, i); }
    if ShowsField(bare, i, collection, path) { ShownTraced(bare, i, collection, path); }
  }
}
