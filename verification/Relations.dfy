/**
 Relational query trees and their meaning: the rows a tree yields over a database.
 Outer, semi and anti joins iterate over their preserved side, so row order is determined.
 */
module Relations {
  import opened Options
  import opened Values

  // ----- syntax -----

  datatype Literal =
    | LNull
    | LBool(b: bool)
    | LString(s: string)
    | LInt(i: int)
    | LFloat(r: real)
    | LOther(tag: nat)  // dates, decimals, intervals and so on

  datatype CompareOp = Eq | NotEq | Lt | LtEq | Gt | GtEq

  datatype Expr =
    | Column(index: nat)
    | Lit(literal: Literal)
    | Compare(op: CompareOp, left: Expr, right: Expr)
    | And(left: Expr, right: Expr)
    | Or(left: Expr, right: Expr)
    | Not(expr: Expr)
    | IsNull(expr: Expr)
    | IsNotNull(expr: Expr)
    | GetField(column: Expr, field: string)
    | Other(name: string, args: seq<Expr>)  // any other operator

  datatype JoinType = Inner | Left | Right | Full | LeftSemi | LeftAnti | RightSemi | RightAnti

  datatype JoinOn = JoinOn(left: Expr, right: Expr)

  datatype SortKey = SortKey(expr: Expr, descending: bool, nullsFirst: bool)

  datatype Relation =
    | From(collection: string, columns: seq<string>)
    | Filter(input: Relation, condition: Expr)
    | Sort(input: Relation, keys: seq<SortKey>)
    | Paginate(input: Relation, fetch: Option<nat>, skip: nat)
    | Project(input: Relation, exprs: seq<Expr>)
    | Join(left: Relation, right: Relation, on: seq<JoinOn>, joinType: JoinType)
    | Aggregate(input: Relation, groupBy: seq<Expr>, aggregates: seq<Expr>)
    | Window(input: Relation, exprs: seq<Expr>)
    | Union(relations: seq<Relation>)

  /** The number of output columns of a relation. */
  function ColumnCount(r: Relation): nat {
    match r
    case From(_, columns) => |columns|
    case Project(_, exprs) => |exprs|
    case Filter(input, _) => ColumnCount(input)
    case Sort(input, _) => ColumnCount(input)
    case Paginate(input, _, _) => ColumnCount(input)
    case Aggregate(_, groupBy, aggregates) => |groupBy| + |aggregates|
    case Join(left, right, _, joinType) =>
      if joinType.LeftSemi? || joinType.LeftAnti? then ColumnCount(left)
      else if joinType.RightSemi? || joinType.RightAnti? then ColumnCount(right)
      else ColumnCount(left) + ColumnCount(right)
    case Window(input, exprs) => ColumnCount(input) + |exprs|
    case Union(relations) => if relations == [] then 0 else ColumnCount(relations[0])
  }

  /** All branches of every union have the same number of columns. */
  predicate ArityConsistent(r: Relation) {
    match r
    case From(_, _) => true
    case Filter(input, _) => ArityConsistent(input)
    case Sort(input, _) => ArityConsistent(input)
    case Paginate(input, _, _) => ArityConsistent(input)
    case Project(input, _) => ArityConsistent(input)
    case Join(left, right, _, _) => ArityConsistent(left) && ArityConsistent(right)
    case Aggregate(input, _, _) => ArityConsistent(input)
    case Window(input, _) => ArityConsistent(input)
    case Union(relations) =>
      forall i :: 0 <= i < |relations| ==>
        ArityConsistent(relations[i]) && ColumnCount(relations[i]) == ColumnCount(relations[0])
  }

  // ----- meaning of expressions -----

  type Row = seq<Value>

  /** A database: the documents of each collection. */
  type Database = string -> seq<Value>

  /**
   What the rewrites do not look into: the order on values, the remaining operators and literals,
   and the aggregate and window functions.
   */
  datatype Semantics = Semantics(
    compare: (Value, Value) -> int,
    other: (string, seq<Value>) -> Value,
    otherLiteral: nat -> Value,
    aggregate: (Expr, seq<Row>) -> Value,
    window: (Expr, seq<Row>, nat) -> Value)

  /** The order on values is a total preorder. */
  ghost predicate Ordered(sem: Semantics) {
    && (forall a, b :: sem.compare(a, b) < 0 <==> sem.compare(b, a) > 0)
    && (forall a, b, c :: sem.compare(a, b) <= 0 && sem.compare(b, c) <= 0 ==> sem.compare(a, c) <= 0)
  }

  predicate Truthy(v: Value) {
    !v.Null? && v != Bool(false) && v != Int(0) && v != Float(0.0)
  }

  predicate Holds(op: CompareOp, comparison: int) {
    match op
    case Eq => comparison == 0
    case NotEq => comparison != 0
    case Lt => comparison < 0
    case LtEq => comparison <= 0
    case Gt => comparison > 0
    case GtEq => comparison >= 0
  }

  function LiteralValue(sem: Semantics, literal: Literal): Value {
    match literal
    case LNull => Null
    case LBool(b) => Bool(b)
    case LString(s) => Str(s)
    case LInt(i) => Int(i)
    case LFloat(r) => Float(r)
    case LOther(tag) => sem.otherLiteral(tag)
  }

  /** A column out of range reads as null. */
  function Eval(sem: Semantics, e: Expr, row: Row): Value {
    match e
    case Column(index) => if index < |row| then row[index] else Null
    case Lit(literal) => LiteralValue(sem, literal)
    case Compare(op, left, right) =>
      Bool(Holds(op, sem.compare(Eval(sem, left, row), Eval(sem, right, row))))
    case And(left, right) => Bool(Truthy(Eval(sem, left, row)) && Truthy(Eval(sem, right, row)))
    case Or(left, right) => Bool(Truthy(Eval(sem, left, row)) || Truthy(Eval(sem, right, row)))
    case Not(expr) => Bool(!Truthy(Eval(sem, expr, row)))
    case IsNull(expr) => Bool(sem.compare(Eval(sem, expr, row), Null) == 0)
    case IsNotNull(expr) => Bool(sem.compare(Eval(sem, expr, row), Null) != 0)
    case GetField(column, field) => Field(Eval(sem, column, row), field)
    case Other(name, args) => sem.other(name, EvalAll(sem, args, row))
  }

  function EvalAll(sem: Semantics, es: seq<Expr>, row: Row): (values: Row)
    ensures |values| == |es|
    ensures forall i :: 0 <= i < |es| ==> values[i] == Eval(sem, es[i], row)
  {
    if es == [] then [] else [Eval(sem, es[0], row)] + EvalAll(sem, es[1..], row)
  }

  // ----- meaning of relations -----

  function FromRows(columns: seq<string>, docs: seq<Value>): (rows: seq<Row>)
    ensures |rows| == |docs|
  {
    seq(|docs|, i requires 0 <= i < |docs| => DocRow(columns, docs[i]))
  }

  function DocRow(columns: seq<string>, doc: Value): (row: Row)
    ensures |row| == |columns|
  {
    seq(|columns|, i requires 0 <= i < |columns| => AtPath(doc, columns[i]))
  }

  function FilterRows(sem: Semantics, condition: Expr, rows: seq<Row>): seq<Row> {
    if rows == [] then []
    else if Truthy(Eval(sem, condition, rows[0])) then [rows[0]] + FilterRows(sem, condition, rows[1..])
    else FilterRows(sem, condition, rows[1..])
  }

  function ProjectRows(sem: Semantics, exprs: seq<Expr>, rows: seq<Row>): (projected: seq<Row>)
    ensures |projected| == |rows|
  {
    seq(|rows|, i requires 0 <= i < |rows| => EvalAll(sem, exprs, rows[i]))
  }

  /** Three-way comparison of two rows by one sort key. */
  function CompareKey(sem: Semantics, key: SortKey, a: Row, b: Row): int {
    var x, y := Eval(sem, key.expr, a), Eval(sem, key.expr, b);
    if x.Null? && y.Null? then 0
    else if x.Null? then (if key.nullsFirst then -1 else 1)
    else if y.Null? then (if key.nullsFirst then 1 else -1)
    else if key.descending then sem.compare(y, x)
    else sem.compare(x, y)
  }

  /** Lexicographic comparison by all sort keys. */
  function CompareRows(sem: Semantics, keys: seq<SortKey>, a: Row, b: Row): int {
    if keys == [] then 0
    else
      var first := CompareKey(sem, keys[0], a, b);
      if first != 0 then first else CompareRows(sem, keys[1..], a, b)
  }

  /** Inserts a row before the first row that is not smaller. */
  function InsertRow(sem: Semantics, keys: seq<SortKey>, row: Row, rows: seq<Row>): seq<Row> {
    if rows == [] || CompareRows(sem, keys, row, rows[0]) <= 0 then [row] + rows
    else [rows[0]] + InsertRow(sem, keys, row, rows[1..])
  }

  /** Stable sort. */
  function SortRows(sem: Semantics, keys: seq<SortKey>, rows: seq<Row>): seq<Row> {
    if rows == [] then [] else InsertRow(sem, keys, rows[0], SortRows(sem, keys, rows[1..]))
  }

  function PageRows(rows: seq<Row>, fetch: Option<nat>, skip: nat): seq<Row> {
    var rest := if skip <= |rows| then rows[skip..] else [];
    if fetch.Some? && fetch.value <= |rest| then rest[..fetch.value] else rest
  }

  function Nulls(n: nat): (row: Row)
    ensures |row| == n
  {
    seq(n, _ => Null)
  }

  /** The join condition: all pairs of expressions compare equal. */
  predicate OnMatch(sem: Semantics, on: seq<JoinOn>, l: Row, r: Row) {
    forall k :: 0 <= k < |on| ==> sem.compare(Eval(sem, on[k].left, l), Eval(sem, on[k].right, r)) == 0
  }

  function RightMatches(sem: Semantics, on: seq<JoinOn>, l: Row, rights: seq<Row>): seq<Row> {
    if rights == [] then []
    else if OnMatch(sem, on, l, rights[0]) then [rights[0]] + RightMatches(sem, on, l, rights[1..])
    else RightMatches(sem, on, l, rights[1..])
  }

  function LeftMatches(sem: Semantics, on: seq<JoinOn>, lefts: seq<Row>, r: Row): seq<Row> {
    if lefts == [] then []
    else if OnMatch(sem, on, lefts[0], r) then [lefts[0]] + LeftMatches(sem, on, lefts[1..], r)
    else LeftMatches(sem, on, lefts[1..], r)
  }

  function AppendEach(l: Row, rights: seq<Row>): (rows: seq<Row>)
    ensures |rows| == |rights|
  {
    seq(|rights|, i requires 0 <= i < |rights| => l + rights[i])
  }

  function PrependEach(lefts: seq<Row>, r: Row): (rows: seq<Row>)
    ensures |rows| == |lefts|
  {
    seq(|lefts|, i requires 0 <= i < |lefts| => lefts[i] + r)
  }

  /** What one left row contributes to an inner or left-preserving join. */
  function LeftBlock(kind: JoinType, rightCount: nat, l: Row, matches: seq<Row>): seq<Row> {
    match kind
    case Inner => AppendEach(l, matches)
    case LeftSemi => if matches != [] then [l] else []
    case LeftAnti => if matches == [] then [l] else []
    case _ => if matches == [] then [l + Nulls(rightCount)] else AppendEach(l, matches)
  }

  /** What one right row contributes to a right-preserving join. */
  function RightBlock(kind: JoinType, leftCount: nat, matches: seq<Row>, r: Row): seq<Row> {
    match kind
    case RightSemi => if matches != [] then [r] else []
    case RightAnti => if matches == [] then [r] else []
    case _ => if matches == [] then [Nulls(leftCount) + r] else PrependEach(matches, r)
  }

  function JoinLeft(sem: Semantics, on: seq<JoinOn>, kind: JoinType, rightCount: nat,
                    lefts: seq<Row>, rights: seq<Row>): seq<Row>
  {
    if lefts == [] then []
    else
      LeftBlock(kind, rightCount, lefts[0], RightMatches(sem, on, lefts[0], rights))
      + JoinLeft(sem, on, kind, rightCount, lefts[1..], rights)
  }

  function JoinRight(sem: Semantics, on: seq<JoinOn>, kind: JoinType, leftCount: nat,
                     lefts: seq<Row>, rights: seq<Row>): seq<Row>
  {
    if rights == [] then []
    else
      RightBlock(kind, leftCount, LeftMatches(sem, on, lefts, rights[0]), rights[0])
      + JoinRight(sem, on, kind, leftCount, lefts, rights[1..])
  }

  /** Right rows without a partner, padded on the left. */
  function Unmatched(sem: Semantics, on: seq<JoinOn>, leftCount: nat, lefts: seq<Row>, rights: seq<Row>): seq<Row> {
    if rights == [] then []
    else if LeftMatches(sem, on, lefts, rights[0]) == [] then
      [Nulls(leftCount) + rights[0]] + Unmatched(sem, on, leftCount, lefts, rights[1..])
    else Unmatched(sem, on, leftCount, lefts, rights[1..])
  }

  function JoinRows(sem: Semantics, on: seq<JoinOn>, kind: JoinType, leftCount: nat, rightCount: nat,
                    lefts: seq<Row>, rights: seq<Row>): seq<Row>
  {
    match kind
    case Right => JoinRight(sem, on, kind, leftCount, lefts, rights)
    case RightSemi => JoinRight(sem, on, kind, leftCount, lefts, rights)
    case RightAnti => JoinRight(sem, on, kind, leftCount, lefts, rights)
    case Full =>
      JoinLeft(sem, on, Left, rightCount, lefts, rights) + Unmatched(sem, on, leftCount, lefts, rights)
    case _ => JoinLeft(sem, on, kind, rightCount, lefts, rights)
  }

  /** The rows whose group key is `key` (`keep`) or is not (`!keep`). */
  function ByKey(sem: Semantics, groupBy: seq<Expr>, key: Row, keep: bool, rows: seq<Row>): (group: seq<Row>)
    ensures |group| <= |rows|
  {
    if rows == [] then []
    else if (EvalAll(sem, groupBy, rows[0]) == key) == keep then
      [rows[0]] + ByKey(sem, groupBy, key, keep, rows[1..])
    else ByKey(sem, groupBy, key, keep, rows[1..])
  }

  function AggregateValues(sem: Semantics, aggregates: seq<Expr>, group: seq<Row>): (values: Row)
    ensures |values| == |aggregates|
  {
    seq(|aggregates|, i requires 0 <= i < |aggregates| => sem.aggregate(aggregates[i], group))
  }

  /** One row per distinct group key, in order of first occurrence. */
  function GroupRows(sem: Semantics, groupBy: seq<Expr>, aggregates: seq<Expr>, rows: seq<Row>): seq<Row>
    decreases |rows|
  {
    if rows == [] then []
    else
      var key := EvalAll(sem, groupBy, rows[0]);
      [key + AggregateValues(sem, aggregates, ByKey(sem, groupBy, key, true, rows))]
      + GroupRows(sem, groupBy, aggregates, ByKey(sem, groupBy, key, false, rows[1..]))
  }

  function WindowRow(sem: Semantics, exprs: seq<Expr>, rows: seq<Row>, i: nat): (row: Row)
    requires i < |rows|
    ensures |row| == |rows[i]| + |exprs|
    ensures row[..|rows[i]|] == rows[i]
  {
    rows[i] + seq(|exprs|, k requires 0 <= k < |exprs| => sem.window(exprs[k], rows, i))
  }

  function WindowRows(sem: Semantics, exprs: seq<Expr>, rows: seq<Row>): (windowed: seq<Row>)
    ensures |windowed| == |rows|
  {
    seq(|rows|, i requires 0 <= i < |rows| => WindowRow(sem, exprs, rows, i))
  }

  /**
   The rows of a relation. With `root` the leftmost leaf reads those documents in place of its
   collection, as a `$match` at the head of the root pipeline makes it do.
   */
  function Rows(sem: Semantics, db: Database, root: Option<seq<Value>>, r: Relation): seq<Row>
    decreases r
  {
    match r
    case From(collection, columns) => FromRows(columns, if root.Some? then root.value else db(collection))
    case Filter(input, condition) => FilterRows(sem, condition, Rows(sem, db, root, input))
    case Sort(input, keys) => SortRows(sem, keys, Rows(sem, db, root, input))
    case Paginate(input, fetch, skip) => PageRows(Rows(sem, db, root, input), fetch, skip)
    case Project(input, exprs) => ProjectRows(sem, exprs, Rows(sem, db, root, input))
    case Join(left, right, on, kind) =>
      JoinRows(sem, on, kind, ColumnCount(left), ColumnCount(right),
               Rows(sem, db, root, left), Rows(sem, db, None, right))
    case Aggregate(input, groupBy, aggregates) => GroupRows(sem, groupBy, aggregates, Rows(sem, db, root, input))
    case Window(input, exprs) => WindowRows(sem, exprs, Rows(sem, db, root, input))
    case Union(relations) => UnionRows(sem, db, root, relations)
  }

  function UnionRows(sem: Semantics, db: Database, root: Option<seq<Value>>, rs: seq<Relation>): seq<Row>
    decreases rs
  {
    if rs == [] then [] else Rows(sem, db, root, rs[0]) + UnionRows(sem, db, None, rs[1..])
  }
}
