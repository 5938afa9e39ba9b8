/**
 Lifting a filter to a `$match` on the documents of the root collection. When nothing between the
 filter and the root leaf depends on rows the match removes, the whole query yields the same rows.
 */
module OptimizeFilters {
  import opened Options
  import opened Text
  import opened Values
  import opened Relations
  import opened NormalizeJoins
  import opened ColumnOrigins
  import opened PushdownPredicates

  // ----- query documents -----

  datatype Query =
    | FieldIs(path: string, op: CompareOp, value: Value)
    | AllOf(left: Query, right: Query)
    | AnyOf(left: Query, right: Query)

  predicate Satisfies(sem: Semantics, q: Query, doc: Value) {
    match q
    case FieldIs(path, op, value) => Holds(op, sem.compare(AtPath(doc, path), value))
    case AllOf(left, right) => Satisfies(sem, left, doc) && Satisfies(sem, right, doc)
    case AnyOf(left, right) => Satisfies(sem, left, doc) || Satisfies(sem, right, doc)
  }

  function MatchDocs(sem: Semantics, q: Query, docs: seq<Value>): seq<Value> {
    if docs == [] then []
    else if Satisfies(sem, q, docs[0]) then [docs[0]] + MatchDocs(sem, q, docs[1..])
    else MatchDocs(sem, q, docs[1..])
  }

  // ----- extraction -----

  function RootCollection(r: Relation): Option<string> {
    match r
    case From(collection, _) => Some(collection)
    case Filter(input, _) => RootCollection(input)
    case Sort(input, _) => RootCollection(input)
    case Paginate(input, _, _) => RootCollection(input)
    case Project(input, _) => RootCollection(input)
    case Aggregate(input, _, _) => RootCollection(input)
    case Window(input, _) => RootCollection(input)
    case Join(left, _, _, _) => RootCollection(left)
    case Union(_) => None
  }

  function TraceToPath(input: Relation, e: Expr, root: string): Option<string> {
    match e
    case Column(index) =>
      (match TraceColumn(input, index)
       case FromField(collection, path) => if collection == root then Some(path) else None
       case Computed => None)
    case GetField(column, field) =>
      (match TraceToPath(input, column, root)
       case Some(path) => Some(path + "." + field)
       case None => None)
    case _ => None
  }

  /** Literals that have a query document form without knowing the type of the field. */
  function LiteralToBson(literal: Literal): Option<Value> {
    match literal
    case LNull => Some(Null)
    case LBool(b) => Some(Bool(b))
    case LString(s) => Some(Str(s))
    case LInt(i) => Some(Int(i))
    case LFloat(r) => Some(Float(r))
    case LOther(_) => None
  }

  function MakeQuery(input: Relation, condition: Expr): Option<Query> {
    match RootCollection(input)
    case None => None
    case Some(root) =>
      match condition
      case Compare(op, left, right) =>
        (match (TraceToPath(input, left, root), if right.Lit? then LiteralToBson(right.literal) else None)
         case (Some(path), Some(value)) => Some(FieldIs(path, op, value))
         case _ => None)
      case And(left, right) =>
        (match (MakeQuery(input, left), MakeQuery(input, right))
         case (Some(l), Some(r)) => Some(AllOf(l, r)) case _ => None)
      case Or(left, right) =>
        (match (MakeQuery(input, left), MakeQuery(input, right))
         case (Some(l), Some(r)) => Some(AnyOf(l, r)) case _ => None)
      case IsNull(expr) =>
        (match TraceToPath(input, expr, root) case Some(path) => Some(FieldIs(path, Eq, Null)) case None => None)
      case IsNotNull(expr) =>
        (match TraceToPath(input, expr, root) case Some(path) => Some(FieldIs(path, NotEq, Null)) case None => None)
      case _ => None
  }

  function ExtractEarlyMatch(r: Relation): Option<Query> {
    match r
    case Filter(input, condition) =>
      var query := MakeQuery(input, condition);
      if query.Some? then query else ExtractEarlyMatch(input)
    case Sort(input, _) => ExtractEarlyMatch(input)
    case Paginate(input, _, _) => ExtractEarlyMatch(input)
    case Project(input, _) => ExtractEarlyMatch(input)
    case Aggregate(input, _, _) => ExtractEarlyMatch(input)
    case Window(input, _) => ExtractEarlyMatch(input)
    case Join(left, _, _, _) => ExtractEarlyMatch(left)
    case Union(_) => None
    case From(_, _) => None
  }

  // ----- when lifting is safe -----

  /** Nested field names without dots, also inside conditions. */
  predicate UndottedCondition(e: Expr) {
    match e
    case Compare(_, left, _) => UndottedExpr(left)
    case And(left, right) => UndottedCondition(left) && UndottedCondition(right)
    case Or(left, right) => UndottedCondition(left) && UndottedCondition(right)
    case IsNull(expr) => UndottedExpr(expr)
    case IsNotNull(expr) => UndottedExpr(expr)
    case _ => true
  }

  /**
   The condition passes down to the root leaf: through filters and sorts as it is, through projections
   and groupings in its remapped form, and through joins that iterate over their left side if it reads
   left columns only. At the leaf it accesses nested fields by names without dots. Full joins do not
   pass it; no pipeline is built for them.
   */
  predicate Transparent(r: Relation, p: Expr) {
    match r
    case From(_, _) => UndottedCondition(p)
    case Filter(input, _) => Transparent(input, p)
    case Sort(input, _) => Transparent(input, p)
    case Project(input, exprs) => Remap(p, exprs).Some? && Transparent(input, Remap(p, exprs).value)
    case Aggregate(input, groupBy, _) => Remap(p, groupBy).Some? && Transparent(input, Remap(p, groupBy).value)
    case Join(left, _, _, kind) =>
      && (kind.Inner? || kind.Left? || kind.LeftSemi? || kind.LeftAnti?)
      && ColumnsBelow(p, ColumnCount(left)) && Transparent(left, p)
    case _ => false
  }

  /** The condition that is lifted passes down to the root leaf. Nothing is asked of the nodes above it. */
  predicate Liftable(r: Relation) {
    match r
    case Filter(input, condition) =>
      if MakeQuery(input, condition).Some? then Transparent(input, condition) else Liftable(input)
    case Sort(input, _) => Liftable(input)
    case Paginate(input, _, _) => Liftable(input)
    case Project(input, _) => Liftable(input)
    case Aggregate(input, _, _) => Liftable(input)
    case Window(input, _) => Liftable(input)
    case Join(left, _, _, _) => Liftable(left)
    case Union(_) => true
    case From(_, _) => true
  }

  // ----- filters commute with filters and stable sorts -----

  lemma {:induction false} FilterFilter(sem: Semantics, p: Expr, c: Expr, rows: seq<Row>)
    ensures FilterRows(sem, p, FilterRows(sem, c, rows)) == FilterRows(sem, c, FilterRows(sem, p, rows))
  {
    if rows != [] {
      FilterFilter(sem, p, c, rows[1..]);
      FilterCons(sem, p, rows[0], FilterRows(sem, c, rows[1..]));
      FilterCons(sem, c, rows[0], FilterRows(sem, p, rows[1..]));
    }
  }

  lemma FilterCons(sem: Semantics, p: Expr, row: Row, rows: seq<Row>)
    ensures FilterRows(sem, p, [row] + rows)
         == if Truthy(Eval(sem, p, row)) then [row] + FilterRows(sem, p, rows) else FilterRows(sem, p, rows)
  {
    assert ([row] + rows)[1..] == rows;
  }

  lemma {:induction false} FilterAppend(sem: Semantics, p: Expr, a: seq<Row>, b: seq<Row>)
    ensures FilterRows(sem, p, a + b) == FilterRows(sem, p, a) + FilterRows(sem, p, b)
  {
    if a == [] {
      assert a + b == b;
    } else {
      FilterAppend(sem, p, a[1..], b);
      assert (a + b)[0] == a[0] && (a + b)[1..] == a[1..] + b;
      Regroup([a[0]], FilterRows(sem, p, a[1..]), FilterRows(sem, p, b));
    }
  }

  lemma KeyOrder(sem: Semantics, key: SortKey, a: Row, b: Row, c: Row)
    requires Ordered(sem)
    ensures CompareKey(sem, key, a, b) < 0 <==> CompareKey(sem, key, b, a) > 0
    ensures CompareKey(sem, key, a, b) <= 0 && CompareKey(sem, key, b, c) <= 0 ==> CompareKey(sem, key, a, c) <= 0
  {
  }

  /** Lexicographic comparison is again a total preorder. */
  lemma {:induction false} RowOrder(sem: Semantics, keys: seq<SortKey>, a: Row, b: Row, c: Row)
    requires Ordered(sem)
    ensures CompareRows(sem, keys, a, b) < 0 <==> CompareRows(sem, keys, b, a) > 0
    ensures CompareRows(sem, keys, a, b) <= 0 && CompareRows(sem, keys, b, c) <= 0 ==> CompareRows(sem, keys, a, c) <= 0
  {
    if keys != [] {
      var key := keys[0];
      RowOrder(sem, keys[1..], a, b, c);
      KeyOrder(sem, key, a, b, c);
      KeyOrder(sem, key, b, a, c);
      KeyOrder(sem, key, c, a, b);
      KeyOrder(sem, key, b, c, a);
      KeyOrder(sem, key, a, c, b);
    }
  }

  ghost predicate Sorted(sem: Semantics, keys: seq<SortKey>, rows: seq<Row>) {
    forall i, j :: 0 <= i < j < |rows| ==> CompareRows(sem, keys, rows[i], rows[j]) <= 0
  }

  lemma {:induction false} InsertSorted(sem: Semantics, keys: seq<SortKey>, row: Row, rows: seq<Row>)
    requires Ordered(sem) && Sorted(sem, keys, rows)
    ensures Sorted(sem, keys, InsertRow(sem, keys, row, rows))
  {
    if rows != [] {
      RowOrder(sem, keys, row, rows[0], row);
      if CompareRows(sem, keys, row, rows[0]) <= 0 {
        forall j | 0 <= j < |rows| ensures CompareRows(sem, keys, row, rows[j]) <= 0 {
          RowOrder(sem, keys, row, rows[0], rows[j]);
        }
      } else {
        InsertSorted(sem, keys, row, rows[1..]);
        var rest := InsertRow(sem, keys, row, rows[1..]);
        RowOrder(sem, keys, rows[0], row, row);
        forall j | 0 <= j < |rest| ensures CompareRows(sem, keys, rows[0], rest[j]) <= 0 {
          InsertMember(sem, keys, row, rows[1..], rest[j]);
        }
      }
    }
  }

  lemma {:induction false} SortSorted(sem: Semantics, keys: seq<SortKey>, rows: seq<Row>)
    requires Ordered(sem)
    ensures Sorted(sem, keys, SortRows(sem, keys, rows))
  {
    if rows != [] {
      SortSorted(sem, keys, rows[1..]);
      InsertSorted(sem, keys, rows[0], SortRows(sem, keys, rows[1..]));
    }
  }

  lemma {:induction false} InsertFirst(sem: Semantics, keys: seq<SortKey>, row: Row, rows: seq<Row>)
    requires forall y :: y in rows ==> CompareRows(sem, keys, row, y) <= 0
    ensures InsertRow(sem, keys, row, rows) == [row] + rows
  {
  }

  lemma {:induction false} FilterInsert(sem: Semantics, p: Expr, keys: seq<SortKey>, row: Row, rows: seq<Row>)
    requires Ordered(sem) && Sorted(sem, keys, rows)
    ensures FilterRows(sem, p, InsertRow(sem, keys, row, rows))
         == if Truthy(Eval(sem, p, row)) then InsertRow(sem, keys, row, FilterRows(sem, p, rows))
            else FilterRows(sem, p, rows)
  {
    if rows == [] || CompareRows(sem, keys, row, rows[0]) <= 0 {
      FilterCons(sem, p, row, rows);
      forall y | y in FilterRows(sem, p, rows) ensures CompareRows(sem, keys, row, y) <= 0 {
        FilterMember(sem, p, rows, y);
        var j :| 0 <= j < |rows| && rows[j] == y;
        RowOrder(sem, keys, row, rows[0], y);
      }
      InsertFirst(sem, keys, row, FilterRows(sem, p, rows));
    } else {
      FilterInsert(sem, p, keys, row, rows[1..]);
      FilterCons(sem, p, rows[0], InsertRow(sem, keys, row, rows[1..]));
      var kept := FilterRows(sem, p, rows[1..]);
      assert ([rows[0]] + kept)[1..] == kept;
    }
  }

  /** A stable sort and a filter commute. */
  lemma {:induction false} FilterSort(sem: Semantics, p: Expr, keys: seq<SortKey>, rows: seq<Row>)
    requires Ordered(sem)
    ensures FilterRows(sem, p, SortRows(sem, keys, rows)) == SortRows(sem, keys, FilterRows(sem, p, rows))
  {
    if rows != [] {
      var rest := rows[1..];
      FilterSort(sem, p, keys, rest);
      SortSorted(sem, keys, rest);
      FilterInsert(sem, p, keys, rows[0], SortRows(sem, keys, rest));
      var kept := FilterRows(sem, p, rest);
      assert ([rows[0]] + kept)[1..] == kept;
    }
  }

  // ----- conditions on leading columns -----

  /** The condition reads columns below `n` only. */
  predicate ColumnsBelow(e: Expr, n: nat) {
    match e
    case Column(index) => index < n
    case Lit(_) => true
    case Compare(_, left, right) => ColumnsBelow(left, n) && ColumnsBelow(right, n)
    case And(left, right) => ColumnsBelow(left, n) && ColumnsBelow(right, n)
    case Or(left, right) => ColumnsBelow(left, n) && ColumnsBelow(right, n)
    case Not(expr) => ColumnsBelow(expr, n)
    case IsNull(expr) => ColumnsBelow(expr, n)
    case IsNotNull(expr) => ColumnsBelow(expr, n)
    case GetField(column, _) => ColumnsBelow(column, n)
    case Other(_, _) => false
  }

  lemma {:induction false} EvalLeading(sem: Semantics, e: Expr, a: Row, b: Row)
    requires ColumnsBelow(e, |a|)
    ensures Eval(sem, e, a + b) == Eval(sem, e, a)
  {
    match e
    case Column(_) =>
    case Lit(_) =>
    case Compare(_, left, right) => EvalLeading(sem, left, a, b); EvalLeading(sem, right, a, b);
    case And(left, right) => EvalLeading(sem, left, a, b); EvalLeading(sem, right, a, b);
    case Or(left, right) => EvalLeading(sem, left, a, b); EvalLeading(sem, right, a, b);
    case Not(expr) => EvalLeading(sem, expr, a, b);
    case IsNull(expr) => EvalLeading(sem, expr, a, b);
    case IsNotNull(expr) => EvalLeading(sem, expr, a, b);
    case GetField(column, _) => EvalLeading(sem, column, a, b);
  }

  lemma {:induction false} FilterUniform(sem: Semantics, p: Expr, rows: seq<Row>, keep: bool)
    requires forall y :: y in rows ==> Truthy(Eval(sem, p, y)) == keep
    ensures FilterRows(sem, p, rows) == if keep then rows else []
  {
    if rows != [] {
      FilterUniform(sem, p, rows[1..], keep);
      assert rows == [rows[0]] + rows[1..];
    }
  }

  /** A condition on the left columns keeps or drops all that one left row contributes. */
  lemma FilterBlock(sem: Semantics, p: Expr, kind: JoinType, rc: nat, l: Row, matches: seq<Row>)
    requires ColumnsBelow(p, |l|)
    ensures FilterRows(sem, p, LeftBlock(kind, rc, l, matches))
         == if Truthy(Eval(sem, p, l)) then LeftBlock(kind, rc, l, matches) else []
  {
    var block := LeftBlock(kind, rc, l, matches);
    forall y | y in block ensures Truthy(Eval(sem, p, y)) == Truthy(Eval(sem, p, l)) {
      if y != l {
        assert |l| <= |y| && y == l + y[|l|..];
        EvalLeading(sem, p, l, y[|l|..]);
      }
    }
    FilterUniform(sem, p, block, Truthy(Eval(sem, p, l)));
  }

  lemma {:induction false} FilterJoinLeft(sem: Semantics, p: Expr, on: seq<JoinOn>, kind: JoinType, lc: nat, rc: nat,
                                          lefts: seq<Row>, rights: seq<Row>)
    requires ColumnsBelow(p, lc) && Wide(lefts, lc)
    ensures FilterRows(sem, p, JoinLeft(sem, on, kind, rc, lefts, rights))
         == JoinLeft(sem, on, kind, rc, FilterRows(sem, p, lefts), rights)
  {
    if lefts != [] {
      var l := lefts[0];
      var block := LeftBlock(kind, rc, l, RightMatches(sem, on, l, rights));
      FilterBlock(sem, p, kind, rc, l, RightMatches(sem, on, l, rights));
      FilterAppend(sem, p, block, JoinLeft(sem, on, kind, rc, lefts[1..], rights));
      FilterJoinLeft(sem, p, on, kind, lc, rc, lefts[1..], rights);
      var kept := FilterRows(sem, p, lefts[1..]);
      assert ([l] + kept)[1..] == kept;
    }
  }

  // ----- conditions on group keys -----

  lemma {:induction false} ByKeyFilter(sem: Semantics, groupBy: seq<Expr>, key: Row, keep: bool, p: Expr,
                                       rows: seq<Row>)
    ensures ByKey(sem, groupBy, key, keep, FilterRows(sem, p, rows))
         == FilterRows(sem, p, ByKey(sem, groupBy, key, keep, rows))
  {
    if rows != [] {
      ByKeyFilter(sem, groupBy, key, keep, p, rows[1..]);
      var kept, group := FilterRows(sem, p, rows[1..]), ByKey(sem, groupBy, key, keep, rows[1..]);
      assert ([rows[0]] + kept)[1..] == kept;
      FilterCons(sem, p, rows[0], group);
    }
  }

  lemma {:induction false} ByKeyHasKey(sem: Semantics, groupBy: seq<Expr>, key: Row, rows: seq<Row>, row: Row)
    requires row in ByKey(sem, groupBy, key, true, rows)
    ensures EvalAll(sem, groupBy, row) == key
  {
    if EvalAll(sem, groupBy, rows[0]) != key || row != rows[0] {
      ByKeyHasKey(sem, groupBy, key, rows[1..], row);
    }
  }

  /** Filtering by a condition that fails on the group with this key leaves only the other rows. */
  lemma {:induction false} FilterWithoutKey(sem: Semantics, groupBy: seq<Expr>, key: Row, p: Expr, rows: seq<Row>)
    requires forall row :: row in rows && EvalAll(sem, groupBy, row) == key ==> !Truthy(Eval(sem, p, row))
    ensures FilterRows(sem, p, ByKey(sem, groupBy, key, false, rows)) == FilterRows(sem, p, rows)
  {
    if rows != [] {
      FilterWithoutKey(sem, groupBy, key, p, rows[1..]);
      FilterCons(sem, p, rows[0], ByKey(sem, groupBy, key, false, rows[1..]));
    }
  }

  /** A condition on the group keys can be tested on the rows before grouping. */
  lemma {:induction false} FilterGroup(sem: Semantics, p: Expr, groupBy: seq<Expr>, aggregates: seq<Expr>,
                                       rows: seq<Row>)
    requires ColumnsBelow(p, |groupBy|) && Remap(p, groupBy).Some?
    ensures FilterRows(sem, p, GroupRows(sem, groupBy, aggregates, rows))
         == GroupRows(sem, groupBy, aggregates, FilterRows(sem, Remap(p, groupBy).value, rows))
    decreases |rows|
  {
    if rows != [] {
      var p' := Remap(p, groupBy).value;
      var key := EvalAll(sem, groupBy, rows[0]);
      var others := ByKey(sem, groupBy, key, false, rows[1..]);
      var group := ByKey(sem, groupBy, key, true, rows);
      var first := key + AggregateValues(sem, aggregates, group);
      var kept := FilterRows(sem, p', rows);
      var keptRest := FilterRows(sem, p', rows[1..]);
      FilterCons(sem, p, first, GroupRows(sem, groupBy, aggregates, others));
      EvalLeading(sem, p, key, AggregateValues(sem, aggregates, group));
      FilterGroup(sem, p, groupBy, aggregates, others);
      forall row | EvalAll(sem, groupBy, row) == key
        ensures Eval(sem, p', row) == Eval(sem, p, key)
      {
        RemapEval(sem, p, groupBy, row);
      }
      ByKeyFilter(sem, groupBy, key, false, p', rows[1..]);
      if Truthy(Eval(sem, p, key)) {
        assert kept == [rows[0]] + keptRest && kept[1..] == keptRest;
        ByKeyFilter(sem, groupBy, key, true, p', rows);
        forall row | row in group ensures Truthy(Eval(sem, p', row)) {
          ByKeyHasKey(sem, groupBy, key, rows, row);
        }
        FilterUniform(sem, p', group, true);
      } else {
        FilterWithoutKey(sem, groupBy, key, p', rows[1..]);
      }
    }
  }

  // ----- queries made from conditions -----

  lemma {:induction false} TraceAgrees(input: Relation, e: Expr, root: string)
    ensures (match TraceToPath(input, e, root)
             case Some(path) => TraceExpr(input, e) == FromField(root, path) && SimpleField(e)
             case None => !(TraceExpr(input, e).FromField? && TraceExpr(input, e).collection == root))
  {
    match e
    case GetField(column, _) => TraceAgrees(input, column, root);
    case _ =>
  }

  /** Below a filter, sort or pagination the same query is made. */
  lemma {:induction false} QueryThrough(r: Relation, input: Relation, p: Expr)
    requires (r.Filter? || r.Sort? || r.Paginate?) && input == r.input
    ensures MakeQuery(r, p) == MakeQuery(input, p)
  {
    match p
    case Compare(_, left, _) => PathThrough(r, input, left);
    case And(left, right) => QueryThrough(r, input, left); QueryThrough(r, input, right);
    case Or(left, right) => QueryThrough(r, input, left); QueryThrough(r, input, right);
    case IsNull(expr) => PathThrough(r, input, expr);
    case IsNotNull(expr) => PathThrough(r, input, expr);
    case _ =>
  }

  lemma {:induction false} PathThrough(r: Relation, input: Relation, e: Expr)
    requires (r.Filter? || r.Sort? || r.Paginate?) && input == r.input
    ensures forall root :: TraceToPath(r, e, root) == TraceToPath(input, e, root)
  {
    match e
    case GetField(column, _) => PathThrough(r, input, column);
    case _ =>
  }

  /** A query made above a join from left columns is made from them below it. */
  lemma {:induction false} QueryLeft(r: Relation, p: Expr)
    requires r.Join? && !r.joinType.RightSemi? && !r.joinType.RightAnti?
    requires MakeQuery(r, p).Some? && ColumnsBelow(p, ColumnCount(r.left))
    ensures MakeQuery(r.left, p) == MakeQuery(r, p)
  {
    match p
    case Compare(_, left, _) => PathLeft(r, left);
    case And(left, right) => QueryLeft(r, left); QueryLeft(r, right);
    case Or(left, right) => QueryLeft(r, left); QueryLeft(r, right);
    case IsNull(expr) => PathLeft(r, expr);
    case IsNotNull(expr) => PathLeft(r, expr);
  }

  lemma {:induction false} PathLeft(r: Relation, e: Expr)
    requires r.Join? && !r.joinType.RightSemi? && !r.joinType.RightAnti? && ColumnsBelow(e, ColumnCount(r.left))
    ensures forall root :: TraceToPath(r.left, e, root) == TraceToPath(r, e, root)
  {
    match e
    case GetField(column, _) => PathLeft(r, column);
    case _ =>
  }

  /** A query made above a projection or grouping is made from the remapped condition below it. */
  lemma {:induction false} QueryBelow(r: Relation, exprs: seq<Expr>, p: Expr)
    requires (r.Project? && exprs == r.exprs) || (r.Aggregate? && exprs == r.groupBy)
    requires MakeQuery(r, p).Some?
    ensures ColumnsBelow(p, |exprs|) && Remap(p, exprs).Some?
    ensures MakeQuery(r.input, Remap(p, exprs).value) == MakeQuery(r, p)
  {
    var root := RootCollection(r).value;
    match p
    case Compare(_, left, _) => PathBelow(r, exprs, left, root);
    case And(left, right) => QueryBelow(r, exprs, left); QueryBelow(r, exprs, right);
    case Or(left, right) => QueryBelow(r, exprs, left); QueryBelow(r, exprs, right);
    case IsNull(expr) => PathBelow(r, exprs, expr, root);
    case IsNotNull(expr) => PathBelow(r, exprs, expr, root);
  }

  lemma {:induction false} PathBelow(r: Relation, exprs: seq<Expr>, e: Expr, root: string)
    requires (r.Project? && exprs == r.exprs) || (r.Aggregate? && exprs == r.groupBy)
    requires TraceToPath(r, e, root).Some?
    ensures ColumnsBelow(e, |exprs|) && Remap(e, exprs).Some?
    ensures TraceToPath(r.input, Remap(e, exprs).value, root) == TraceToPath(r, e, root)
  {
    match e
    case Column(index) => TraceAgrees(r.input, exprs[index], root);
    case GetField(column, _) => PathBelow(r, exprs, column, root);
  }

  /** On the rows of a leaf the condition holds exactly when the document satisfies the query. */
  lemma {:induction false} LeafQuery(sem: Semantics, r: Relation, p: Expr, doc: Value)
    requires r.From? && MakeQuery(r, p).Some? && UndottedCondition(p)
    ensures Truthy(Eval(sem, p, DocRow(r.columns, doc))) == Satisfies(sem, MakeQuery(r, p).value, doc)
  {
    var root := RootCollection(r).value;
    match p
    case Compare(_, left, _) => LeafPath(sem, r, left, root, doc);
    case And(left, right) => LeafQuery(sem, r, left, doc); LeafQuery(sem, r, right, doc);
    case Or(left, right) => LeafQuery(sem, r, left, doc); LeafQuery(sem, r, right, doc);
    case IsNull(expr) => LeafPath(sem, r, expr, root, doc);
    case IsNotNull(expr) => LeafPath(sem, r, expr, root, doc);
  }

  lemma {:induction false} LeafPath(sem: Semantics, r: Relation, e: Expr, root: string, doc: Value)
    requires r.From? && TraceToPath(r, e, root).Some? && UndottedExpr(e)
    ensures Eval(sem, e, DocRow(r.columns, doc)) == AtPath(doc, TraceToPath(r, e, root).value)
  {
    match e
    case Column(_) =>
    case GetField(column, field) =>
      LeafPath(sem, r, column, root, doc);
      AtPathField(doc, TraceToPath(r, column, root).value, field);
  }

  lemma {:induction false} FilterLeaf(sem: Semantics, r: Relation, p: Expr, docs: seq<Value>)
    requires r.From? && MakeQuery(r, p).Some? && UndottedCondition(p)
    ensures FilterRows(sem, p, FromRows(r.columns, docs))
         == FromRows(r.columns, MatchDocs(sem, MakeQuery(r, p).value, docs))
  {
    if docs != [] {
      LeafQuery(sem, r, p, docs[0]);
      FilterLeaf(sem, r, p, docs[1..]);
      assert FromRows(r.columns, docs)[1..] == FromRows(r.columns, docs[1..]);
    }
  }

  // ----- soundness -----

  /**
   The central step: filtering the rows of a tree by a condition that passes down it is the same as
   running the tree on the matching documents only.
   */
  lemma {:induction false} LiftFilter(sem: Semantics, db: Database, docs: seq<Value>, r: Relation, p: Expr)
    requires Ordered(sem) && ArityConsistent(r)
    requires MakeQuery(r, p).Some? && Transparent(r, p)
    ensures FilterRows(sem, p, Rows(sem, db, Some(docs), r))
         == Rows(sem, db, Some(MatchDocs(sem, MakeQuery(r, p).value, docs)), r)
    decreases r
  {
    match r
    case From(_, _) => FilterLeaf(sem, r, p, docs);
    case Filter(input, condition) =>
      QueryThrough(r, input, p);
      LiftFilter(sem, db, docs, input, p);
      FilterFilter(sem, p, condition, Rows(sem, db, Some(docs), input));
    case Sort(input, keys) =>
      QueryThrough(r, input, p);
      LiftFilter(sem, db, docs, input, p);
      FilterSort(sem, p, keys, Rows(sem, db, Some(docs), input));
    case Project(input, exprs) =>
      QueryBelow(r, exprs, p);
      LiftFilter(sem, db, docs, input, Remap(p, exprs).value);
      FilterProject(sem, p, exprs, Rows(sem, db, Some(docs), input));
    case Aggregate(input, groupBy, aggregates) =>
      QueryBelow(r, groupBy, p);
      LiftFilter(sem, db, docs, input, Remap(p, groupBy).value);
      FilterGroup(sem, p, groupBy, aggregates, Rows(sem, db, Some(docs), input));
    case Join(left, right, on, kind) =>
      QueryLeft(r, p);
      LiftFilter(sem, db, docs, left, p);
      RowWidth(sem, db, Some(docs), left);
      FilterJoinLeft(sem, p, on, kind, ColumnCount(left), ColumnCount(right),
                     Rows(sem, db, Some(docs), left), Rows(sem, db, None, right));
  }

  lemma {:induction false} MatchTwice(sem: Semantics, q: Query, docs: seq<Value>)
    ensures MatchDocs(sem, q, MatchDocs(sem, q, docs)) == MatchDocs(sem, q, docs)
  {
    if docs != [] {
      MatchTwice(sem, q, docs[1..]);
      var kept := MatchDocs(sem, q, docs[1..]);
      assert ([docs[0]] + kept)[1..] == kept;
    }
  }

  /**
   Early match is sound: running a query with the extracted `$match` on its root documents yields
   the same rows as running it without.
   */
  lemma {:induction false} EarlyMatchSound(sem: Semantics, db: Database, docs: seq<Value>, r: Relation)
    requires Ordered(sem) && ArityConsistent(r) && Liftable(r)
    requires ExtractEarlyMatch(r).Some?
    ensures Rows(sem, db, Some(MatchDocs(sem, ExtractEarlyMatch(r).value, docs)), r) == Rows(sem, db, Some(docs), r)
    decreases r
  {
    match r
    case Filter(input, condition) =>
      if MakeQuery(input, condition).Some? {
        var q := MakeQuery(input, condition).value;
        LiftFilter(sem, db, docs, input, condition);
        LiftFilter(sem, db, MatchDocs(sem, q, docs), input, condition);
        MatchTwice(sem, q, docs);
      } else {
        EarlyMatchSound(sem, db, docs, input);
      }
    case Sort(input, _) => EarlyMatchSound(sem, db, docs, input);
    case Paginate(input, _, _) => EarlyMatchSound(sem, db, docs, input);
    case Project(input, _) => EarlyMatchSound(sem, db, docs, input);
    case Aggregate(input, _, _) => EarlyMatchSound(sem, db, docs, input);
    case Window(input, _) => EarlyMatchSound(sem, db, docs, input);
    case Join(left, _, _, _) => EarlyMatchSound(sem, db, docs, left);
  }

  lemma {:induction false} RootRows(sem: Semantics, db: Database, r: Relation)
    requires RootCollection(r).Some?
    ensures Rows(sem, db, Some(db(RootCollection(r).value)), r) == Rows(sem, db, None, r)
  {
    match r
    case From(_, _) =>
    case Filter(input, _) => RootRows(sem, db, input);
    case Sort(input, _) => RootRows(sem, db, input);
    case Paginate(input, _, _) => RootRows(sem, db, input);
    case Project(input, _) => RootRows(sem, db, input);
    case Aggregate(input, _, _) => RootRows(sem, db, input);
    case Window(input, _) => RootRows(sem, db, input);
    case Join(left, _, _, _) => RootRows(sem, db, left);
  }

  lemma {:induction false} ExtractedHasRoot(r: Relation)
    requires ExtractEarlyMatch(r).Some?
    ensures RootCollection(r).Some?
  {
    match r
    case Filter(input, condition) => if MakeQuery(input, condition).None? { ExtractedHasRoot(input); }
    case Sort(input, _) => ExtractedHasRoot(input);
    case Paginate(input, _, _) => ExtractedHasRoot(input);
    case Project(input, _) => ExtractedHasRoot(input);
    case Aggregate(input, _, _) => ExtractedHasRoot(input);
    case Window(input, _) => ExtractedHasRoot(input);
    case Join(left, _, _, _) => ExtractedHasRoot(left);
  }

  /**
   The three passes together: normalizing the joins, pushing predicates down and prepending the
   early match to the root collection's documents leaves the rows of the query as they were.
   */
  lemma {:induction false} PassesPreserveRows(sem: Semantics, db: Database, r: Relation)
    requires Ordered(sem) && ArityConsistent(r)
    ensures var optimized := Pushdown(Normalize(r));
      && NoRightJoins(optimized)
      && Rows(sem, db, None, optimized) == Rows(sem, db, None, r)
      && (ExtractEarlyMatch(optimized).Some? && Liftable(optimized) ==>
            RootCollection(optimized).Some? &&
            var docs := db(RootCollection(optimized).value);
            Rows(sem, db, Some(MatchDocs(sem, ExtractEarlyMatch(optimized).value, docs)), optimized)
            == Rows(sem, db, None, r))
  {
    var normalized := Normalize(r);
    var optimized := Pushdown(normalized);
    NormalizeShape(r);
    PushdownShape(normalized);
    NormalizePreservesRows(sem, db, r);
    PushdownPreservesRows(sem, db, None, normalized);
    if ExtractEarlyMatch(optimized).Some? && Liftable(optimized) {
      ExtractedHasRoot(optimized);
      RootRows(sem, db, optimized);
      EarlyMatchSound(sem, db, db(RootCollection(optimized).value), optimized);
    }
  }
}
