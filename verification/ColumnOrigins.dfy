/**
 Tracing an output column back to the collection field it shows, and the proof that the traced
 field is where the values of the column come from.
 */
module ColumnOrigins {
  import opened Options
  import opened Text
  import opened Values
  import opened Relations
  import opened PushdownPredicates
  import opened NormalizeJoins

  // ----- the analysis -----

  datatype ColumnOrigin = Computed | FromField(collection: string, path: string)

  function TraceColumn(r: Relation, index: nat): ColumnOrigin
    decreases r, 0
  {
    match r
    case From(collection, columns) =>
      if index < |columns| then FromField(collection, columns[index]) else Computed
    case Filter(input, _) => TraceColumn(input, index)
    case Sort(input, _) => TraceColumn(input, index)
    case Paginate(input, _, _) => TraceColumn(input, index)
    case Project(input, exprs) => if index < |exprs| then TraceExpr(input, exprs[index]) else Computed
    case Aggregate(input, groupBy, _) => if index < |groupBy| then TraceExpr(input, groupBy[index]) else Computed
    case Window(input, _) => if index < ColumnCount(input) then TraceColumn(input, index) else Computed
    case Join(left, right, _, kind) =>
      if kind.RightSemi? || kind.RightAnti? then TraceColumn(right, index)
      else if kind.LeftSemi? || kind.LeftAnti? then TraceColumn(left, index)
      else if index < ColumnCount(left) then TraceColumn(left, index)
      else TraceColumn(right, index - ColumnCount(left))
    case Union(relations) => if relations == [] then Computed else TraceColumn(relations[0], index)
  }

  function TraceExpr(input: Relation, e: Expr): ColumnOrigin
    decreases input, 1, e
  {
    match e
    case Column(index) => TraceColumn(input, index)
    case GetField(column, field) =>
      (match TraceExpr(input, column)
       case FromField(collection, path) => FromField(collection, path + "." + field)
       case Computed => Computed)
    case _ => Computed
  }

  // ----- what a traced column may show -----

  /** The traced column is on a side of an outer join that is padded with nulls. */
  predicate Padded(r: Relation, index: nat)
    decreases r, 0
  {
    match r
    case From(_, _) => false
    case Filter(input, _) => Padded(input, index)
    case Sort(input, _) => Padded(input, index)
    case Paginate(input, _, _) => Padded(input, index)
    case Project(input, exprs) => index < |exprs| && PaddedExpr(input, exprs[index])
    case Aggregate(input, groupBy, _) => index < |groupBy| && PaddedExpr(input, groupBy[index])
    case Window(input, _) => Padded(input, index)
    case Join(left, right, _, kind) =>
      (match kind
       case LeftSemi => Padded(left, index)
       case LeftAnti => Padded(left, index)
       case RightSemi => Padded(right, index)
       case RightAnti => Padded(right, index)
       case _ =>
         if index < ColumnCount(left) then kind.Right? || kind.Full? || Padded(left, index)
         else kind.Left? || kind.Full? || Padded(right, index - ColumnCount(left)))
    case Union(relations) => exists i :: 0 <= i < |relations| && Padded(relations[i], index)
  }

  predicate PaddedExpr(input: Relation, e: Expr)
    decreases input, 1, e
  {
    match e
    case Column(index) => Padded(input, index)
    case GetField(column, _) => PaddedExpr(input, column)
    case _ => false
  }

  /**
   Tracing, which looks at the first branch of a union only, speaks for the other branches too: they
   have as many columns, and trace a column to the same origin wherever the first branch has one.
   */
  predicate Traceable(r: Relation) {
    match r
    case From(_, _) => true
    case Filter(input, _) => Traceable(input)
    case Sort(input, _) => Traceable(input)
    case Paginate(input, _, _) => Traceable(input)
    case Project(input, _) => Traceable(input)
    case Join(left, right, _, _) => Traceable(left) && Traceable(right)
    case Aggregate(input, _, _) => Traceable(input)
    case Window(input, _) => Traceable(input)
    case Union(relations) =>
      forall i :: 0 <= i < |relations| ==>
        && Traceable(relations[i]) && ColumnCount(relations[i]) == ColumnCount(relations[0])
        && forall c :: 0 <= c < ColumnCount(relations[0]) ==>
             TraceColumn(relations[0], c).Computed? || TraceColumn(relations[i], c) == TraceColumn(relations[0], c)
  }

  /** Nested fields are accessed by names without dots, so that appending a name to a path is reversible. */
  predicate UndottedExpr(e: Expr) {
    match e
    case GetField(column, field) => '.' !in field && UndottedExpr(column)
    case _ => true
  }

  predicate Undotted(r: Relation) {
    match r
    case From(_, _) => true
    case Filter(input, _) => Undotted(input)
    case Sort(input, _) => Undotted(input)
    case Paginate(input, _, _) => Undotted(input)
    case Project(input, exprs) => Undotted(input) && forall i :: 0 <= i < |exprs| ==> UndottedExpr(exprs[i])
    case Join(left, right, _, _) => Undotted(left) && Undotted(right)
    case Aggregate(input, groupBy, _) =>
      Undotted(input) && forall i :: 0 <= i < |groupBy| ==> UndottedExpr(groupBy[i])
    case Window(input, _) => Undotted(input)
    case Union(relations) => forall i :: 0 <= i < |relations| ==> Undotted(relations[i])
  }

  /** A value shown by some document at a path, or a null padded in by an outer join. */
  ghost predicate Shows(docs: seq<Value>, path: string, padded: bool, v: Value) {
    (exists k :: 0 <= k < |docs| && v == AtPath(docs[k], path)) || (padded && v == Null)
  }

  /** The column has the origin the analysis says, in this row. */
  ghost predicate Originates(db: Database, origin: ColumnOrigin, padded: bool, v: Value) {
    origin.FromField? ==> Shows(db(origin.collection), origin.path, padded, v)
  }

  // ----- membership of rows -----

  lemma {:induction false} FilterMember(sem: Semantics, condition: Expr, rows: seq<Row>, row: Row)
    ensures row in FilterRows(sem, condition, rows) <==> row in rows && Truthy(Eval(sem, condition, row))
  {
    if rows != [] {
      FilterMember(sem, condition, rows[1..], row);
      assert rows == [rows[0]] + rows[1..];
    }
  }

  lemma {:induction false} InsertMember(sem: Semantics, keys: seq<SortKey>, x: Row, rows: seq<Row>, row: Row)
    ensures row in InsertRow(sem, keys, x, rows) <==> row == x || row in rows
  {
    if rows != [] {
      InsertMember(sem, keys, x, rows[1..], row);
      assert rows == [rows[0]] + rows[1..];
    }
  }

  lemma {:induction false} SortMember(sem: Semantics, keys: seq<SortKey>, rows: seq<Row>, row: Row)
    ensures row in SortRows(sem, keys, rows) <==> row in rows
  {
    if rows != [] {
      SortMember(sem, keys, rows[1..], row);
      InsertMember(sem, keys, rows[0], SortRows(sem, keys, rows[1..]), row);
      assert rows == [rows[0]] + rows[1..];
    }
  }

  lemma {:induction false} ByKeyMember(sem: Semantics, groupBy: seq<Expr>, key: Row, keep: bool, rows: seq<Row>,
                                       row: Row)
    requires row in ByKey(sem, groupBy, key, keep, rows)
    ensures row in rows
  {
    if row != rows[0] || (EvalAll(sem, groupBy, rows[0]) == key) != keep {
      ByKeyMember(sem, groupBy, key, keep, rows[1..], row);
    }
  }

  /** A group row starts with the group key of some input row. */
  lemma {:induction false} GroupMember(sem: Semantics, groupBy: seq<Expr>, aggregates: seq<Expr>, rows: seq<Row>,
                                       row: Row)
      returns (source: Row)
    requires row in GroupRows(sem, groupBy, aggregates, rows)
    ensures source in rows && |groupBy| <= |row| && row[..|groupBy|] == EvalAll(sem, groupBy, source)
    decreases |rows|
  {
    var key := EvalAll(sem, groupBy, rows[0]);
    var first := key + AggregateValues(sem, aggregates, ByKey(sem, groupBy, key, true, rows));
    if row == first {
      source := rows[0];
    } else {
      var rest := ByKey(sem, groupBy, key, false, rows[1..]);
      source := GroupMember(sem, groupBy, aggregates, rest, row);
      ByKeyMember(sem, groupBy, key, false, rows[1..], source);
    }
  }

  lemma {:induction false} MatchMember(sem: Semantics, on: seq<JoinOn>, l: Row, rights: seq<Row>, r: Row)
    ensures r in RightMatches(sem, on, l, rights) <==> r in rights && OnMatch(sem, on, l, r)
  {
    if rights != [] {
      MatchMember(sem, on, l, rights[1..], r);
      assert rights == [rights[0]] + rights[1..];
    }
  }

  lemma {:induction false} LeftMatchMember(sem: Semantics, on: seq<JoinOn>, lefts: seq<Row>, r: Row, l: Row)
    ensures l in LeftMatches(sem, on, lefts, r) <==> l in lefts && OnMatch(sem, on, l, r)
  {
    if lefts != [] {
      LeftMatchMember(sem, on, lefts[1..], r, l);
      assert lefts == [lefts[0]] + lefts[1..];
    }
  }

  /** How a row of a join is composed. */
  datatype Parts = Both(l: Row, r: Row) | OnlyLeft(l: Row) | OnlyRight(r: Row)

  /** The parts are rows of the inputs, and a join may leave out only the part it does not preserve. */
  ghost predicate Composed(kind: JoinType, lc: nat, rc: nat, lefts: seq<Row>, rights: seq<Row>, row: Row,
                           parts: Parts) {
    match parts
    case Both(l, r) =>
      l in lefts && r in rights && row == l + r && (kind.Inner? || kind.Left? || kind.Right? || kind.Full?)
    case OnlyLeft(l) =>
      && l in lefts
      && if kind.LeftSemi? || kind.LeftAnti? then row == l
         else (kind.Left? || kind.Full?) && row == l + Nulls(rc)
    case OnlyRight(r) =>
      && r in rights
      && if kind.RightSemi? || kind.RightAnti? then row == r
         else (kind.Right? || kind.Full?) && row == Nulls(lc) + r
  }

  lemma {:induction false} JoinLeftMember(sem: Semantics, on: seq<JoinOn>, kind: JoinType, lc: nat, rc: nat,
                                          lefts: seq<Row>, rights: seq<Row>, row: Row)
      returns (parts: Parts)
    requires kind.Inner? || kind.Left? || kind.LeftSemi? || kind.LeftAnti?
    requires row in JoinLeft(sem, on, kind, rc, lefts, rights)
    ensures Composed(kind, lc, rc, lefts, rights, row, parts)
  {
    var l := lefts[0];
    var matches := RightMatches(sem, on, l, rights);
    if row in LeftBlock(kind, rc, l, matches) {
      if kind.Inner? || (kind.Left? && matches != []) {
        var k :| 0 <= k < |matches| && row == l + matches[k];
        MatchMember(sem, on, l, rights, matches[k]);
        parts := Both(l, matches[k]);
      } else {
        parts := OnlyLeft(l);
      }
    } else {
      parts := JoinLeftMember(sem, on, kind, lc, rc, lefts[1..], rights, row);
    }
  }

  lemma {:induction false} JoinRightMember(sem: Semantics, on: seq<JoinOn>, kind: JoinType, lc: nat, rc: nat,
                                           lefts: seq<Row>, rights: seq<Row>, row: Row)
      returns (parts: Parts)
    requires kind.Right? || kind.RightSemi? || kind.RightAnti?
    requires row in JoinRight(sem, on, kind, lc, lefts, rights)
    ensures Composed(kind, lc, rc, lefts, rights, row, parts)
  {
    var r := rights[0];
    var matches := LeftMatches(sem, on, lefts, r);
    if row in RightBlock(kind, lc, matches, r) {
      if kind.Right? && matches != [] {
        var k :| 0 <= k < |matches| && row == matches[k] + r;
        LeftMatchMember(sem, on, lefts, r, matches[k]);
        parts := Both(matches[k], r);
      } else {
        parts := OnlyRight(r);
      }
    } else {
      parts := JoinRightMember(sem, on, kind, lc, rc, lefts, rights[1..], row);
    }
  }

  lemma {:induction false} UnmatchedMember(sem: Semantics, on: seq<JoinOn>, lc: nat, rc: nat, lefts: seq<Row>,
                                           rights: seq<Row>, row: Row) returns (parts: Parts)
    requires row in Unmatched(sem, on, lc, lefts, rights)
    ensures Composed(Full, lc, rc, lefts, rights, row, parts)
  {
    if row == Nulls(lc) + rights[0] && LeftMatches(sem, on, lefts, rights[0]) == [] {
      parts := OnlyRight(rights[0]);
    } else {
      parts := UnmatchedMember(sem, on, lc, rc, lefts, rights[1..], row);
    }
  }

  lemma JoinMember(sem: Semantics, on: seq<JoinOn>, kind: JoinType, lc: nat, rc: nat, lefts: seq<Row>,
                   rights: seq<Row>, row: Row) returns (parts: Parts)
    requires row in JoinRows(sem, on, kind, lc, rc, lefts, rights)
    ensures Composed(kind, lc, rc, lefts, rights, row, parts)
  {
    match kind
    case Right => parts := JoinRightMember(sem, on, kind, lc, rc, lefts, rights, row);
    case RightSemi => parts := JoinRightMember(sem, on, kind, lc, rc, lefts, rights, row);
    case RightAnti => parts := JoinRightMember(sem, on, kind, lc, rc, lefts, rights, row);
    case Full =>
      if row in JoinLeft(sem, on, Left, rc, lefts, rights) {
        parts := JoinLeftMember(sem, on, Left, lc, rc, lefts, rights, row);
      } else {
        parts := UnmatchedMember(sem, on, lc, rc, lefts, rights, row);
      }
    case _ => parts := JoinLeftMember(sem, on, kind, lc, rc, lefts, rights, row);
  }

  // ----- provenance -----

  /** An expression over a row shows the field it is traced to, if the row's columns do. */
  lemma {:induction false} ExprProvenance(sem: Semantics, db: Database, input: Relation, e: Expr, row: Row)
    requires UndottedExpr(e) && |row| == ColumnCount(input)
    requires forall i :: 0 <= i < |row| ==> Originates(db, TraceColumn(input, i), Padded(input, i), row[i])
    requires forall i :: i >= |row| ==> TraceColumn(input, i).Computed?
    ensures Originates(db, TraceExpr(input, e), PaddedExpr(input, e), Eval(sem, e, row))
  {
    match e
    case GetField(column, field) =>
      ExprProvenance(sem, db, input, column, row);
      var origin, v := TraceExpr(input, column), Eval(sem, column, row);
      if origin.FromField? {
        var docs := db(origin.collection);
        if exists k :: 0 <= k < |docs| && v == AtPath(docs[k], origin.path) {
          var k :| 0 <= k < |docs| && v == AtPath(docs[k], origin.path);
          AtPathField(docs[k], origin.path, field);
        }
      }
    case Column(index) =>
      assert index >= |row| ==> TraceColumn(input, index).Computed?;
    case _ =>
  }

  /** Columns beyond the last have no origin. */
  lemma {:induction false} NoOriginBeyond(r: Relation, index: nat)
    requires Traceable(r) && index >= ColumnCount(r)
    ensures TraceColumn(r, index).Computed?
  {
    match r
    case From(_, _) =>
    case Filter(input, _) => NoOriginBeyond(input, index);
    case Sort(input, _) => NoOriginBeyond(input, index);
    case Paginate(input, _, _) => NoOriginBeyond(input, index);
    case Project(_, _) =>
    case Aggregate(_, _, _) =>
    case Window(_, _) =>
    case Join(left, right, _, kind) =>
      if kind.LeftSemi? || kind.LeftAnti? { NoOriginBeyond(left, index); }
      else if kind.RightSemi? || kind.RightAnti? { NoOriginBeyond(right, index); }
      else { NoOriginBeyond(right, index - ColumnCount(left)); }
    case Union(relations) => if relations != [] { NoOriginBeyond(relations[0], index); }
  }

  /** Every column of a row has the origin the analysis says. */
  ghost predicate RowOriginates(db: Database, r: Relation, row: Row) {
    && |row| == ColumnCount(r)
    && forall i :: 0 <= i < |row| ==> Originates(db, TraceColumn(r, i), Padded(r, i), row[i])
  }

  lemma EvalAllProvenance(sem: Semantics, db: Database, input: Relation, es: seq<Expr>, row: Row)
    requires Traceable(input) && RowOriginates(db, input, row)
    requires forall i :: 0 <= i < |es| ==> UndottedExpr(es[i])
    ensures forall i :: 0 <= i < |es| ==>
      Originates(db, TraceExpr(input, es[i]), PaddedExpr(input, es[i]), EvalAll(sem, es, row)[i])
  {
    forall i: nat | i >= |row| ensures TraceColumn(input, i).Computed? {
      NoOriginBeyond(input, i);
    }
    forall i | 0 <= i < |es|
      ensures Originates(db, TraceExpr(input, es[i]), PaddedExpr(input, es[i]), EvalAll(sem, es, row)[i])
    {
      ExprProvenance(sem, db, input, es[i], row);
    }
  }

  lemma ComposedColumn(db: Database, r: Relation, lefts: seq<Row>, rights: seq<Row>, row: Row, parts: Parts, i: nat)
    requires r.Join? && Traceable(r) && i < |row|
    requires Composed(r.joinType, ColumnCount(r.left), ColumnCount(r.right), lefts, rights, row, parts)
    requires !parts.OnlyRight? ==> RowOriginates(db, r.left, parts.l)
    requires !parts.OnlyLeft? ==> RowOriginates(db, r.right, parts.r)
    ensures Originates(db, TraceColumn(r, i), Padded(r, i), row[i])
  {
    var lc := ColumnCount(r.left);
    if parts.Both? {
      assert row[i] == if i < lc then parts.l[i] else parts.r[i - lc];
    } else if parts.OnlyLeft? {
      assert i < lc ==> row[i] == parts.l[i];
    } else if !r.joinType.RightSemi? && !r.joinType.RightAnti? {
      assert i >= lc ==> row[i] == parts.r[i - lc];
    }
  }

  lemma ComposedProvenance(db: Database, r: Relation, lefts: seq<Row>, rights: seq<Row>, row: Row, parts: Parts)
    requires r.Join? && Traceable(r)
    requires Composed(r.joinType, ColumnCount(r.left), ColumnCount(r.right), lefts, rights, row, parts)
    requires !parts.OnlyRight? ==> RowOriginates(db, r.left, parts.l)
    requires !parts.OnlyLeft? ==> RowOriginates(db, r.right, parts.r)
    ensures RowOriginates(db, r, row)
  {
    forall i | 0 <= i < |row| ensures Originates(db, TraceColumn(r, i), Padded(r, i), row[i]) {
      ComposedColumn(db, r, lefts, rights, row, parts, i);
    }
  }

  lemma GroupProvenance(sem: Semantics, db: Database, r: Relation, source: Row, row: Row)
    requires r.Aggregate? && Traceable(r) && Undotted(r) && RowOriginates(db, r.input, source)
    requires |row| == ColumnCount(r) && row[..|r.groupBy|] == EvalAll(sem, r.groupBy, source)
    ensures RowOriginates(db, r, row)
  {
    EvalAllProvenance(sem, db, r.input, r.groupBy, source);
    forall i | 0 <= i < |row| ensures Originates(db, TraceColumn(r, i), Padded(r, i), row[i]) {
      assert i < |r.groupBy| ==> row[i] == row[..|r.groupBy|][i];
    }
  }

  lemma WindowProvenance(sem: Semantics, db: Database, r: Relation, rows: seq<Row>, k: nat)
    requires r.Window? && k < |rows| && RowOriginates(db, r.input, rows[k])
    ensures RowOriginates(db, r, WindowRow(sem, r.exprs, rows, k))
  {
    var row := WindowRow(sem, r.exprs, rows, k);
    forall i | 0 <= i < |row| ensures Originates(db, TraceColumn(r, i), Padded(r, i), row[i]) {
      assert i < |rows[k]| ==> row[i] == row[..|rows[k]|][i];
    }
  }

  lemma {:induction false} UnionMember(sem: Semantics, db: Database, rs: seq<Relation>, row: Row) returns (i: nat)
    requires row in UnionRows(sem, db, None, rs)
    ensures i < |rs| && row in Rows(sem, db, None, rs[i])
  {
    if row in Rows(sem, db, None, rs[0]) {
      i := 0;
    } else {
      var j := UnionMember(sem, db, rs[1..], row);
      i := j + 1;
    }
  }

  lemma UnionProvenance(db: Database, r: Relation, i: nat, row: Row)
    requires r.Union? && Traceable(r) && i < |r.relations| && RowOriginates(db, r.relations[i], row)
    ensures RowOriginates(db, r, row)
  {
    var branch := r.relations[i];
    forall c | 0 <= c < |row| ensures Originates(db, TraceColumn(r, c), Padded(r, c), row[c]) {
      assert Originates(db, TraceColumn(branch, c), Padded(branch, c), row[c]);
      assert TraceColumn(r, c).Computed? || TraceColumn(r, c) == TraceColumn(branch, c);
    }
  }

  /**
   Column provenance. In a traceable relation with undotted nested field names, a column traced to
   a collection field shows, in every row, the value at that path of some document of that
   collection, or a null if an outer join may have padded it.
   */
  lemma {:induction false} ColumnProvenance(sem: Semantics, db: Database, r: Relation, row: Row)
    requires Traceable(r) && Undotted(r)
    requires row in Rows(sem, db, None, r)
    ensures RowOriginates(db, r, row)
    decreases r
  {
    match r
    case From(collection, columns) =>
      var docs := db(collection);
      var k :| 0 <= k < |docs| && row == DocRow(columns, docs[k]);
    case Filter(input, condition) =>
      FilterMember(sem, condition, Rows(sem, db, None, input), row);
      ColumnProvenance(sem, db, input, row);
    case Sort(input, keys) =>
      SortMember(sem, keys, Rows(sem, db, None, input), row);
      ColumnProvenance(sem, db, input, row);
    case Paginate(input, _, _) =>
      ColumnProvenance(sem, db, input, row);
    case Project(input, exprs) =>
      var rows := Rows(sem, db, None, input);
      var k :| 0 <= k < |rows| && row == EvalAll(sem, exprs, rows[k]);
      ColumnProvenance(sem, db, input, rows[k]);
      EvalAllProvenance(sem, db, input, exprs, rows[k]);
    case Aggregate(input, groupBy, aggregates) =>
      var rows := Rows(sem, db, None, input);
      var source := GroupMember(sem, groupBy, aggregates, rows, row);
      ColumnProvenance(sem, db, input, source);
      GroupWidth(sem, groupBy, aggregates, rows);
      GroupProvenance(sem, db, r, source, row);
    case Window(input, exprs) =>
      var rows := Rows(sem, db, None, input);
      var k :| 0 <= k < |rows| && row == WindowRow(sem, exprs, rows, k);
      ColumnProvenance(sem, db, input, rows[k]);
      WindowProvenance(sem, db, r, rows, k);
    case Join(left, right, on, kind) =>
      var lefts, rights := Rows(sem, db, None, left), Rows(sem, db, None, right);
      var parts := JoinMember(sem, on, kind, ColumnCount(left), ColumnCount(right), lefts, rights, row);
      if !parts.OnlyRight? { ColumnProvenance(sem, db, left, parts.l); }
      if !parts.OnlyLeft? { ColumnProvenance(sem, db, right, parts.r); }
      ComposedProvenance(db, r, lefts, rights, row, parts);
    case Union(relations) =>
      var i := UnionMember(sem, db, relations, row);
      ColumnProvenance(sem, db, relations[i], row);
      UnionProvenance(db, r, i, row);
  }

  // ----- where the conditions on unions and names are needed -----

  /** On every database the origins hold in every row. */
  ghost predicate OriginsTrue(sem: Semantics, r: Relation) {
    forall db: Database, row: Row :: row in Rows(sem, db, None, r) ==> RowOriginates(db, r, row)
  }

  /** A union of leaves with equally many columns. */
  predicate LeafUnion(r: Relation) {
    r.Union? && forall i :: 0 <= i < |r.relations| ==>
      r.relations[i].From? && r.relations[0].From? && |r.relations[i].columns| == |r.relations[0].columns|
  }

  lemma {:induction false} BranchRows(sem: Semantics, db: Database, rs: seq<Relation>, i: nat, row: Row)
    requires i < |rs| && row in Rows(sem, db, None, rs[i])
    ensures row in UnionRows(sem, db, None, rs)
  {
    if i > 0 {
      BranchRows(sem, db, rs[1..], i - 1, row);
    }
  }

  /** A branch that reads another collection or another field than the first shows what tracing does not find. */
  lemma LeafBranchOrigin(sem: Semantics, r: Relation, i: nat, c: nat)
    requires LeafUnion(r) && i < |r.relations| && c < |r.relations[0].columns| && OriginsTrue(sem, r)
    ensures TraceColumn(r.relations[i], c) == TraceColumn(r.relations[0], c)
  {
    var first, branch := r.relations[0], r.relations[i];
    var doc := Nested(Split(branch.columns[c]), Int(1));
    var db: Database := name => if name == branch.collection then [doc] else [];
    var row := DocRow(branch.columns, doc);
    assert FromRows(branch.columns, db(branch.collection)) == [row];
    BranchRows(sem, db, r.relations, i, row);
    assert RowOriginates(db, r, row);
    PathsDiffer(branch.columns[c], 1, branch.columns[c]);
    PathsDiffer(branch.columns[c], 1, first.columns[c]);
    assert Originates(db, TraceColumn(r, c), Padded(r, c), row[c]);
  }

  /** The origins of a union of leaves hold on every database exactly if all leaves read the same fields. */
  lemma UnionOriginExact(sem: Semantics, r: Relation)
    requires LeafUnion(r)
    ensures OriginsTrue(sem, r) <==>
      (forall i :: 0 <= i < |r.relations| ==>
         r.relations[i].columns == [] || r.relations[i] == r.relations[0])
  {
    if forall i :: 0 <= i < |r.relations| ==> r.relations[i].columns == [] || r.relations[i] == r.relations[0] {
      SameLeavesTraceable(r);
      forall db: Database, row: Row | row in Rows(sem, db, None, r) ensures RowOriginates(db, r, row) {
        ColumnProvenance(sem, db, r, row);
      }
    }
    if OriginsTrue(sem, r) {
      forall i | 0 <= i < |r.relations|
        ensures r.relations[i].columns == [] || r.relations[i] == r.relations[0]
      {
        SameLeaf(sem, r, i);
      }
    }
  }

  lemma SameLeavesTraceable(r: Relation)
    requires LeafUnion(r)
    requires forall i :: 0 <= i < |r.relations| ==> r.relations[i].columns == [] || r.relations[i] == r.relations[0]
    ensures Traceable(r)
  {
    forall i | 0 <= i < |r.relations|
      ensures Traceable(r.relations[i]) && ColumnCount(r.relations[i]) == ColumnCount(r.relations[0])
      ensures ColumnCount(r.relations[0]) > 0 ==> r.relations[i] == r.relations[0]
    {
      assert r.relations[i].From? && |r.relations[i].columns| == |r.relations[0].columns|;
    }
  }

  lemma SameLeaf(sem: Semantics, r: Relation, i: nat)
    requires LeafUnion(r) && i < |r.relations| && OriginsTrue(sem, r)
    ensures r.relations[i].columns == [] || r.relations[i] == r.relations[0]
  {
    var first, branch := r.relations[0], r.relations[i];
    forall c | 0 <= c < |first.columns|
      ensures branch.columns[c] == first.columns[c] && branch.collection == first.collection
    {
      LeafBranchOrigin(sem, r, i, c);
    }
    assert branch.columns == first.columns;
    if branch.columns != [] {
      assert branch.columns[0] == first.columns[0];
    }
  }

  /** The column an expression of nested field accesses starts from, and the names it accesses. */
  function BaseColumn(e: Expr): nat
    requires SimpleField(e)
  {
    if e.Column? then e.index else BaseColumn(e.column)
  }

  function AccessedNames(e: Expr): seq<string>
    requires SimpleField(e)
  {
    if e.Column? then [] else AccessedNames(e.column) + [e.field]
  }

  lemma {:induction false} AccessedValue(sem: Semantics, columns: seq<string>, e: Expr, doc: Value)
    requires SimpleField(e) && BaseColumn(e) < |columns|
    ensures Eval(sem, e, DocRow(columns, doc)) == Lookup(doc, Split(columns[BaseColumn(e)]) + AccessedNames(e))
  {
    var base := Split(columns[BaseColumn(e)]);
    if e.GetField? {
      AccessedValue(sem, columns, e.column, doc);
      var names := base + AccessedNames(e.column);
      assert base + AccessedNames(e) == names + [e.field];
      LookupAppend(doc, names, [e.field]);
      assert Lookup(Lookup(doc, names), [e.field]) == Lookup(Field(Lookup(doc, names), e.field), []);
    } else {
      assert base + [] == base;
    }
  }

  /** The components of the traced path are the accessed names exactly if none has a dot. */
  lemma {:induction false} AccessedPath(leaf: Relation, e: Expr)
    requires leaf.From? && SimpleField(e) && BaseColumn(e) < |leaf.columns|
    ensures var origin, names := TraceExpr(leaf, e), Split(leaf.columns[BaseColumn(e)]) + AccessedNames(e);
      && origin.FromField? && origin.collection == leaf.collection
      && |Split(origin.path)| >= |names|
      && (Split(origin.path) == names <==> UndottedExpr(e))
      && (|Split(origin.path)| == |names| <==> UndottedExpr(e))
  {
    var base := Split(leaf.columns[BaseColumn(e)]);
    if e.GetField? {
      AccessedPath(leaf, e.column);
      var path := TraceExpr(leaf, e.column).path;
      SplitJoined(path, e.field);
      assert base + AccessedNames(e) == base + AccessedNames(e.column) + [e.field];
      if '.' in e.field { SplitDotted(e.field); } else { SplitUndotted(e.field); }
    } else {
      assert base + [] == base;
    }
  }

  lemma {:induction false} NoBaseColumn(leaf: Relation, e: Expr)
    requires leaf.From? && SimpleField(e) && BaseColumn(e) >= |leaf.columns|
    ensures TraceExpr(leaf, e).Computed?
  {
    if e.GetField? {
      NoBaseColumn(leaf, e.column);
    }
  }

  lemma SoleRow(sem: Semantics, db: Database, leaf: Relation, e: Expr, doc: Value) returns (row: Row)
    requires leaf.From? && db(leaf.collection) == [doc]
    ensures row in Rows(sem, db, None, Project(leaf, [e])) && row == [Eval(sem, e, DocRow(leaf.columns, doc))]
  {
    row := EvalAll(sem, [e], DocRow(leaf.columns, doc));
    assert FromRows(leaf.columns, [doc]) == [DocRow(leaf.columns, doc)];
    assert ProjectRows(sem, [e], [DocRow(leaf.columns, doc)]) == [row];
  }

  /** A document whose projected field is not at the path it is traced to, if some accessed name has a dot. */
  lemma DottedOrigin(sem: Semantics, leaf: Relation, e: Expr)
    requires leaf.From? && SimpleField(e) && BaseColumn(e) < |leaf.columns| && OriginsTrue(sem, Project(leaf, [e]))
    ensures UndottedExpr(e)
  {
    var r, names := Project(leaf, [e]), Split(leaf.columns[BaseColumn(e)]) + AccessedNames(e);
    var doc := Nested(names, Int(1));
    var db: Database := _ => [doc];
    var row := SoleRow(sem, db, leaf, e, doc);
    AccessedValue(sem, leaf.columns, e, doc);
    LookupNested(names, Int(1));
    AccessedPath(leaf, e);
    LookupElsewhere(names, 1, Split(TraceExpr(leaf, e).path));
    assert Originates(db, TraceColumn(r, 0), Padded(r, 0), row[0]);
  }

  /**
   Nested fields of a leaf's columns have the origin they are traced to exactly if no accessed name has
   a dot, or there is no such column.
   */
  lemma FieldOriginExact(sem: Semantics, leaf: Relation, e: Expr)
    requires leaf.From? && SimpleField(e)
    ensures OriginsTrue(sem, Project(leaf, [e])) <==> BaseColumn(e) >= |leaf.columns| || UndottedExpr(e)
  {
    var r := Project(leaf, [e]);
    if BaseColumn(e) >= |leaf.columns| {
      NoBaseColumn(leaf, e);
    } else if UndottedExpr(e) {
      forall db: Database, row: Row | row in Rows(sem, db, None, r) ensures RowOriginates(db, r, row) {
        ColumnProvenance(sem, db, r, row);
      }
    } else if OriginsTrue(sem, r) {
      DottedOrigin(sem, leaf, e);
    }
  }
}
