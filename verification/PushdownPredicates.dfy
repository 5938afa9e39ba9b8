/**
 Filters and sorts above a projection of plain fields move below it. The rewritten tree yields the
 same rows in the same order.
 */
module PushdownPredicates {
  import opened Options
  import opened Values
  import opened Relations
  import opened NormalizeJoins

  // ----- the pass -----

  predicate SimpleField(e: Expr) {
    match e
    case Column(_) => true
    case GetField(column, _) => SimpleField(column)
    case _ => false
  }

  /** Rewrites an expression over projected columns into one over the projection's input. */
  function Remap(e: Expr, exprs: seq<Expr>): Option<Expr> {
    match e
    case Column(index) =>
      if index < |exprs| && SimpleField(exprs[index]) then Some(exprs[index]) else None
    case GetField(column, field) =>
      (match Remap(column, exprs) case Some(c) => Some(GetField(c, field)) case None => None)
    case Lit(_) => Some(e)
    case Compare(op, left, right) =>
      (match (Remap(left, exprs), Remap(right, exprs))
       case (Some(l), Some(r)) => Some(Compare(op, l, r)) case _ => None)
    case And(left, right) =>
      (match (Remap(left, exprs), Remap(right, exprs)) case (Some(l), Some(r)) => Some(And(l, r)) case _ => None)
    case Or(left, right) =>
      (match (Remap(left, exprs), Remap(right, exprs)) case (Some(l), Some(r)) => Some(Or(l, r)) case _ => None)
    case Not(expr) => (match Remap(expr, exprs) case Some(x) => Some(Not(x)) case None => None)
    case IsNull(expr) => (match Remap(expr, exprs) case Some(x) => Some(IsNull(x)) case None => None)
    case IsNotNull(expr) => (match Remap(expr, exprs) case Some(x) => Some(IsNotNull(x)) case None => None)
    case Other(_, _) => None
  }

  function RemapSort(keys: seq<SortKey>, exprs: seq<Expr>): Option<seq<SortKey>> {
    if keys == [] then Some([])
    else
      match (Remap(keys[0].expr, exprs), RemapSort(keys[1..], exprs))
      case (Some(e), Some(rest)) => Some([keys[0].(expr := e)] + rest)
      case _ => None
  }

  /** The columns an expression reads, and whether it applies other operators than the known ones. */
  function ColumnsOf(e: Expr): set<nat> {
    match e
    case Column(index) => {index}
    case Lit(_) => {}
    case Compare(_, left, right) => ColumnsOf(left) + ColumnsOf(right)
    case And(left, right) => ColumnsOf(left) + ColumnsOf(right)
    case Or(left, right) => ColumnsOf(left) + ColumnsOf(right)
    case Not(expr) => ColumnsOf(expr)
    case IsNull(expr) => ColumnsOf(expr)
    case IsNotNull(expr) => ColumnsOf(expr)
    case GetField(column, _) => ColumnsOf(column)
    case Other(_, _) => {}
  }

  predicate AppliesOther(e: Expr) {
    match e
    case Column(_) => false
    case Lit(_) => false
    case Compare(_, left, right) => AppliesOther(left) || AppliesOther(right)
    case And(left, right) => AppliesOther(left) || AppliesOther(right)
    case Or(left, right) => AppliesOther(left) || AppliesOther(right)
    case Not(expr) => AppliesOther(expr)
    case IsNull(expr) => AppliesOther(expr)
    case IsNotNull(expr) => AppliesOther(expr)
    case GetField(column, _) => AppliesOther(column)
    case Other(_, _) => true
  }

  /** An expression is remapped exactly if every column it reads is projected from a plain field. */
  predicate Remappable(e: Expr, exprs: seq<Expr>) {
    !AppliesOther(e) && AllPlain(ColumnsOf(e), exprs)
  }

  predicate AllPlain(columns: set<nat>, exprs: seq<Expr>) {
    forall c :: c in columns ==> c < |exprs| && SimpleField(exprs[c])
  }

  lemma {:induction false} RemapExact(e: Expr, exprs: seq<Expr>)
    ensures Remap(e, exprs).Some? <==> Remappable(e, exprs)
  {
    match e
    case Column(index) => assert index in ColumnsOf(e);
    case Lit(_) =>
    case Compare(_, left, right) => RemapBinary(e, exprs); RemapExact(left, exprs); RemapExact(right, exprs);
    case And(left, right) => RemapBinary(e, exprs); RemapExact(left, exprs); RemapExact(right, exprs);
    case Or(left, right) => RemapBinary(e, exprs); RemapExact(left, exprs); RemapExact(right, exprs);
    case Not(expr) => RemapUnary(e, expr, exprs); RemapExact(expr, exprs);
    case IsNull(expr) => RemapUnary(e, expr, exprs); RemapExact(expr, exprs);
    case IsNotNull(expr) => RemapUnary(e, expr, exprs); RemapExact(expr, exprs);
    case GetField(column, _) => RemapUnary(e, column, exprs); RemapExact(column, exprs);
    case Other(_, _) =>
  }

  lemma RemapBinary(e: Expr, exprs: seq<Expr>)
    requires e.Compare? || e.And? || e.Or?
    ensures Remap(e, exprs).Some? <==> Remap(e.left, exprs).Some? && Remap(e.right, exprs).Some?
    ensures Remappable(e, exprs) <==> Remappable(e.left, exprs) && Remappable(e.right, exprs)
  {
    assert ColumnsOf(e) == ColumnsOf(e.left) + ColumnsOf(e.right);
    assert forall c :: c in ColumnsOf(e) <==> c in ColumnsOf(e.left) || c in ColumnsOf(e.right);
  }

  lemma RemapUnary(e: Expr, operand: Expr, exprs: seq<Expr>)
    requires e == Not(operand) || e == IsNull(operand) || e == IsNotNull(operand)
          || (e.GetField? && e.column == operand)
    ensures Remap(e, exprs).Some? <==> Remap(operand, exprs).Some?
    ensures Remappable(e, exprs) <==> Remappable(operand, exprs)
  {
  }

  predicate SortRemappable(keys: seq<SortKey>, exprs: seq<Expr>) {
    forall i :: 0 <= i < |keys| ==> Remappable(keys[i].expr, exprs)
  }

  lemma {:induction false} RemapSortExact(keys: seq<SortKey>, exprs: seq<Expr>)
    ensures RemapSort(keys, exprs).Some? <==> SortRemappable(keys, exprs)
  {
    if keys != [] {
      RemapExact(keys[0].expr, exprs);
      RemapSortExact(keys[1..], exprs);
      assert keys == [keys[0]] + keys[1..];
    }
  }

  /** The number of nodes; the pass is repeated below a projection, on a tree with one node less. */
  function Size(r: Relation): nat {
    match r
    case From(_, _) => 1
    case Filter(input, _) => 1 + Size(input)
    case Sort(input, _) => 1 + Size(input)
    case Paginate(input, _, _) => 1 + Size(input)
    case Project(input, _) => 1 + Size(input)
    case Join(left, right, _, _) => 1 + Size(left) + Size(right)
    case Aggregate(input, _, _) => 1 + Size(input)
    case Window(input, _) => 1 + Size(input)
    case Union(relations) => 1 + SizeAll(relations)
  }

  function SizeAll(rs: seq<Relation>): nat {
    if rs == [] then 0 else Size(rs[0]) + SizeAll(rs[1..])
  }

  function Pushdown(r: Relation): (result: Relation)
    ensures Size(result) == Size(r)
    decreases Size(r), 0
  {
    match r
    case Filter(input, condition) =>
      var pushed := Pushdown(input);
      if pushed.Project? && Remap(condition, pushed.exprs).Some? then
        Project(Pushdown(Filter(pushed.input, Remap(condition, pushed.exprs).value)), pushed.exprs)
      else Filter(pushed, condition)
    case Sort(input, keys) =>
      var pushed := Pushdown(input);
      if pushed.Project? && RemapSort(keys, pushed.exprs).Some? then
        Project(Pushdown(Sort(pushed.input, RemapSort(keys, pushed.exprs).value)), pushed.exprs)
      else Sort(pushed, keys)
    case From(_, _) => r
    case Paginate(input, fetch, skip) => Paginate(Pushdown(input), fetch, skip)
    case Project(input, exprs) => Project(Pushdown(input), exprs)
    case Join(left, right, on, kind) => Join(Pushdown(left), Pushdown(right), on, kind)
    case Aggregate(input, groupBy, aggregates) => Aggregate(Pushdown(input), groupBy, aggregates)
    case Window(input, exprs) => Window(Pushdown(input), exprs)
    case Union(relations) => Union(PushdownAll(relations))
  }

  function PushdownAll(rs: seq<Relation>): (result: seq<Relation>)
    ensures SizeAll(result) == SizeAll(rs) && |result| == |rs|
    decreases SizeAll(rs), |rs|
  {
    if rs == [] then [] else [Pushdown(rs[0])] + PushdownAll(rs[1..])
  }

  // ----- shape -----

  /** The pass keeps column counts, and introduces neither right joins nor arity mismatches. */
  lemma {:induction false} PushdownShape(r: Relation)
    ensures ColumnCount(Pushdown(r)) == ColumnCount(r)
    ensures NoRightJoins(r) ==> NoRightJoins(Pushdown(r))
    ensures ArityConsistent(r) ==> ArityConsistent(Pushdown(r))
    decreases Size(r), 0
  {
    match r
    case Filter(input, condition) =>
      PushdownShape(input);
      var pushed := Pushdown(input);
      if pushed.Project? && Remap(condition, pushed.exprs).Some? {
        PushdownShape(Filter(pushed.input, Remap(condition, pushed.exprs).value));
      }
    case Sort(input, keys) =>
      PushdownShape(input);
      var pushed := Pushdown(input);
      if pushed.Project? && RemapSort(keys, pushed.exprs).Some? {
        PushdownShape(Sort(pushed.input, RemapSort(keys, pushed.exprs).value));
      }
    case From(_, _) =>
    case Paginate(input, _, _) => PushdownShape(input);
    case Project(input, _) => PushdownShape(input);
    case Join(left, right, _, _) => PushdownShape(left); PushdownShape(right);
    case Aggregate(input, _, _) => PushdownShape(input);
    case Window(input, _) => PushdownShape(input);
    case Union(relations) => PushdownAllShape(relations);
  }

  lemma {:induction false} PushdownAllShape(rs: seq<Relation>)
    ensures forall i :: 0 <= i < |rs| ==>
      && ColumnCount(PushdownAll(rs)[i]) == ColumnCount(rs[i])
      && (NoRightJoins(rs[i]) ==> NoRightJoins(PushdownAll(rs)[i]))
      && (ArityConsistent(rs[i]) ==> ArityConsistent(PushdownAll(rs)[i]))
    decreases SizeAll(rs), |rs|
  {
    if rs != [] {
      PushdownShape(rs[0]);
      PushdownAllShape(rs[1..]);
    }
  }

  /** No filter or sort is left directly above a projection it could move below. */
  predicate Settled(r: Relation) {
    match r
    case Filter(input, condition) =>
      Settled(input) && (input.Project? ==> !Remappable(condition, input.exprs))
    case Sort(input, keys) =>
      Settled(input) && (input.Project? ==> !SortRemappable(keys, input.exprs))
    case From(_, _) => true
    case Paginate(input, _, _) => Settled(input)
    case Project(input, _) => Settled(input)
    case Join(left, right, _, _) => Settled(left) && Settled(right)
    case Aggregate(input, _, _) => Settled(input)
    case Window(input, _) => Settled(input)
    case Union(relations) => forall i :: 0 <= i < |relations| ==> Settled(relations[i])
  }

  lemma {:induction false} PushdownSettles(r: Relation)
    ensures Settled(Pushdown(r))
    decreases Size(r), 0
  {
    match r
    case Filter(input, condition) =>
      PushdownSettles(input);
      var pushed := Pushdown(input);
      if pushed.Project? {
        RemapExact(condition, pushed.exprs);
        if Remap(condition, pushed.exprs).Some? {
          PushdownSettles(Filter(pushed.input, Remap(condition, pushed.exprs).value));
        }
      }
    case Sort(input, keys) =>
      PushdownSettles(input);
      var pushed := Pushdown(input);
      if pushed.Project? {
        RemapSortExact(keys, pushed.exprs);
        if RemapSort(keys, pushed.exprs).Some? {
          PushdownSettles(Sort(pushed.input, RemapSort(keys, pushed.exprs).value));
        }
      }
    case From(_, _) =>
    case Paginate(input, _, _) => PushdownSettles(input);
    case Project(input, _) => PushdownSettles(input);
    case Join(left, right, _, _) => PushdownSettles(left); PushdownSettles(right);
    case Aggregate(input, _, _) => PushdownSettles(input);
    case Window(input, _) => PushdownSettles(input);
    case Union(relations) => PushdownAllSettles(relations);
  }

  lemma {:induction false} PushdownAllSettles(rs: seq<Relation>)
    ensures forall i :: 0 <= i < |rs| ==> Settled(PushdownAll(rs)[i])
    decreases SizeAll(rs), |rs|
  {
    if rs != [] {
      PushdownSettles(rs[0]);
      PushdownAllSettles(rs[1..]);
    }
  }

  lemma {:induction false} SettledUnchanged(r: Relation)
    requires Settled(r)
    ensures Pushdown(r) == r
    decreases r
  {
    match r
    case Filter(input, condition) =>
      SettledUnchanged(input);
      if input.Project? { RemapExact(condition, input.exprs); }
    case Sort(input, keys) =>
      SettledUnchanged(input);
      if input.Project? { RemapSortExact(keys, input.exprs); }
    case From(_, _) =>
    case Paginate(input, _, _) => SettledUnchanged(input);
    case Project(input, _) => SettledUnchanged(input);
    case Join(left, right, _, _) => SettledUnchanged(left); SettledUnchanged(right);
    case Aggregate(input, _, _) => SettledUnchanged(input);
    case Window(input, _) => SettledUnchanged(input);
    case Union(relations) => SettledAllUnchanged(relations);
  }

  lemma {:induction false} SettledAllUnchanged(rs: seq<Relation>)
    requires forall i :: 0 <= i < |rs| ==> Settled(rs[i])
    ensures PushdownAll(rs) == rs
    decreases rs
  {
    if rs != [] {
      SettledUnchanged(rs[0]);
      SettledAllUnchanged(rs[1..]);
      assert rs == [rs[0]] + rs[1..];
    }
  }

  /** The pass leaves exactly the settled trees unchanged, and always produces one. */
  lemma PushdownFixedPoint(r: Relation)
    ensures Pushdown(r) == r <==> Settled(r)
    ensures Pushdown(Pushdown(r)) == Pushdown(r)
  {
    PushdownSettles(r);
    SettledUnchanged(Pushdown(r));
    if Settled(r) {
      SettledUnchanged(r);
    }
  }

  // ----- meaning -----

  /** A remapped expression on an input row equals the original on the projected row. */
  lemma {:induction false} RemapEval(sem: Semantics, e: Expr, exprs: seq<Expr>, row: Row)
    requires Remap(e, exprs).Some?
    ensures Eval(sem, Remap(e, exprs).value, row) == Eval(sem, e, EvalAll(sem, exprs, row))
  {
    match e
    case Column(_) =>
    case GetField(column, _) => RemapEval(sem, column, exprs, row);
    case Lit(_) =>
    case Compare(_, left, right) => RemapEval(sem, left, exprs, row); RemapEval(sem, right, exprs, row);
    case And(left, right) => RemapEval(sem, left, exprs, row); RemapEval(sem, right, exprs, row);
    case Or(left, right) => RemapEval(sem, left, exprs, row); RemapEval(sem, right, exprs, row);
    case Not(expr) => RemapEval(sem, expr, exprs, row);
    case IsNull(expr) => RemapEval(sem, expr, exprs, row);
    case IsNotNull(expr) => RemapEval(sem, expr, exprs, row);
  }

  lemma {:induction false} FilterProject(sem: Semantics, condition: Expr, exprs: seq<Expr>, rows: seq<Row>)
    requires Remap(condition, exprs).Some?
    ensures FilterRows(sem, condition, ProjectRows(sem, exprs, rows))
         == ProjectRows(sem, exprs, FilterRows(sem, Remap(condition, exprs).value, rows))
  {
    if rows != [] {
      RemapEval(sem, condition, exprs, rows[0]);
      FilterProject(sem, condition, exprs, rows[1..]);
      assert ProjectRows(sem, exprs, rows)[1..] == ProjectRows(sem, exprs, rows[1..]);
      var kept := FilterRows(sem, Remap(condition, exprs).value, rows[1..]);
      ProjectAppend(sem, exprs, [rows[0]], kept);
    }
  }

  lemma {:induction false} RemapCompare(sem: Semantics, keys: seq<SortKey>, exprs: seq<Expr>, a: Row, b: Row)
    requires RemapSort(keys, exprs).Some?
    ensures CompareRows(sem, RemapSort(keys, exprs).value, a, b)
         == CompareRows(sem, keys, EvalAll(sem, exprs, a), EvalAll(sem, exprs, b))
  {
    if keys != [] {
      RemapEval(sem, keys[0].expr, exprs, a);
      RemapEval(sem, keys[0].expr, exprs, b);
      RemapCompare(sem, keys[1..], exprs, a, b);
      var remapped := RemapSort(keys, exprs).value;
      assert remapped[1..] == RemapSort(keys[1..], exprs).value;
    }
  }

  lemma {:induction false} InsertProject(sem: Semantics, keys: seq<SortKey>, exprs: seq<Expr>, row: Row, rows: seq<Row>)
    requires RemapSort(keys, exprs).Some?
    ensures InsertRow(sem, keys, EvalAll(sem, exprs, row), ProjectRows(sem, exprs, rows))
         == ProjectRows(sem, exprs, InsertRow(sem, RemapSort(keys, exprs).value, row, rows))
  {
    var remapped := RemapSort(keys, exprs).value;
    var projected := ProjectRows(sem, exprs, rows);
    if rows == [] {
      ProjectAppend(sem, exprs, [row], rows);
    } else {
      RemapCompare(sem, keys, exprs, row, rows[0]);
      assert projected[1..] == ProjectRows(sem, exprs, rows[1..]);
      if CompareRows(sem, remapped, row, rows[0]) <= 0 {
        ProjectAppend(sem, exprs, [row], rows);
      } else {
        InsertProject(sem, keys, exprs, row, rows[1..]);
        ProjectAppend(sem, exprs, [rows[0]], InsertRow(sem, remapped, row, rows[1..]));
      }
    }
  }

  lemma {:induction false} SortProject(sem: Semantics, keys: seq<SortKey>, exprs: seq<Expr>, rows: seq<Row>)
    requires RemapSort(keys, exprs).Some?
    ensures SortRows(sem, keys, ProjectRows(sem, exprs, rows))
         == ProjectRows(sem, exprs, SortRows(sem, RemapSort(keys, exprs).value, rows))
  {
    if rows != [] {
      SortProject(sem, keys, exprs, rows[1..]);
      assert ProjectRows(sem, exprs, rows)[1..] == ProjectRows(sem, exprs, rows[1..]);
      InsertProject(sem, keys, exprs, rows[0], SortRows(sem, RemapSort(keys, exprs).value, rows[1..]));
    }
  }

  /** The pass preserves meaning: the same rows, in the same order, on every database. */
  lemma {:induction false} PushdownPreservesRows(sem: Semantics, db: Database, root: Option<seq<Value>>, r: Relation)
    ensures Rows(sem, db, root, Pushdown(r)) == Rows(sem, db, root, r)
    decreases Size(r), 0
  {
    match r
    case Filter(input, condition) =>
      PushdownPreservesRows(sem, db, root, input);
      var pushed := Pushdown(input);
      if pushed.Project? && Remap(condition, pushed.exprs).Some? {
        FilterProject(sem, condition, pushed.exprs, Rows(sem, db, root, pushed.input));
        PushdownPreservesRows(sem, db, root, Filter(pushed.input, Remap(condition, pushed.exprs).value));
      }
    case Sort(input, keys) =>
      PushdownPreservesRows(sem, db, root, input);
      var pushed := Pushdown(input);
      if pushed.Project? && RemapSort(keys, pushed.exprs).Some? {
        SortProject(sem, keys, pushed.exprs, Rows(sem, db, root, pushed.input));
        PushdownPreservesRows(sem, db, root, Sort(pushed.input, RemapSort(keys, pushed.exprs).value));
      }
    case From(_, _) =>
    case Paginate(input, _, _) => PushdownPreservesRows(sem, db, root, input);
    case Project(input, _) => PushdownPreservesRows(sem, db, root, input);
    case Join(left, right, _, _) =>
      PushdownPreservesRows(sem, db, root, left);
      PushdownPreservesRows(sem, db, None, right);
      PushdownShape(left);
      PushdownShape(right);
    case Aggregate(input, _, _) => PushdownPreservesRows(sem, db, root, input);
    case Window(input, _) => PushdownPreservesRows(sem, db, root, input);
    case Union(relations) => PushdownAllPreservesRows(sem, db, root, relations);
  }

  lemma {:induction false} PushdownAllPreservesRows(sem: Semantics, db: Database, root: Option<seq<Value>>,
                                                    rs: seq<Relation>)
    ensures UnionRows(sem, db, root, PushdownAll(rs)) == UnionRows(sem, db, root, rs)
    decreases SizeAll(rs), |rs|
  {
    if rs != [] {
      PushdownPreservesRows(sem, db, root, rs[0]);
      PushdownAllPreservesRows(sem, db, None, rs[1..]);
      assert PushdownAll(rs)[1..] == PushdownAll(rs[1..]);
    }
  }
}
