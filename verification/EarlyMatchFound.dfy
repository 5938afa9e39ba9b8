/**
 Which filter the early match is made from. The inputs that rows come from first form the spine of a tree;
 the match is that of the outermost filter on the spine whose condition is about fields of the root documents.
 */
module EarlyMatchFound {
  import opened Options
  import opened Values
  import opened Relations
  import opened ColumnOrigins
  import opened PushdownPredicates
  import opened OptimizeFilters

  // ----- the spine -----

  /** The tree, its first input, the first input of that, and so on. */
  function Spine(r: Relation): (spine: seq<Relation>)
    ensures |spine| > 0 && spine[0] == r
  {
    match r
    case From(_, _) => [r]
    case Filter(input, _) => [r] + Spine(input)
    case Sort(input, _) => [r] + Spine(input)
    case Paginate(input, _, _) => [r] + Spine(input)
    case Project(input, _) => [r] + Spine(input)
    case Join(left, _, _, _) => [r] + Spine(left)
    case Aggregate(input, _, _) => [r] + Spine(input)
    case Window(input, _) => [r] + Spine(input)
    case Union(_) => [r]
  }

  function Base(r: Relation): Relation {
    Spine(r)[|Spine(r)| - 1]
  }

  // ----- conditions with a query document -----

  /** A field of the root documents. */
  ghost predicate RootField(input: Relation, e: Expr) {
    && SimpleField(e) && Base(input).From?
    && exists path :: TraceExpr(input, e) == FromField(Base(input).collection, path)
  }

  /** A combination, by conjunction and disjunction, of tests of root fields against null and against literals. */
  ghost predicate Translatable(input: Relation, condition: Expr) {
    match condition
    case Compare(_, left, right) => RootField(input, left) && right.Lit? && !right.literal.LOther?
    case And(left, right) => Translatable(input, left) && Translatable(input, right)
    case Or(left, right) => Translatable(input, left) && Translatable(input, right)
    case IsNull(expr) => RootField(input, expr)
    case IsNotNull(expr) => RootField(input, expr)
    case _ => false
  }

  lemma {:induction false} RootIsBase(r: Relation)
    ensures RootCollection(r) == if Base(r).From? then Some(Base(r).collection) else None
  {
    match r
    case From(_, _) =>
    case Filter(input, _) => RootIsBase(input);
    case Sort(input, _) => RootIsBase(input);
    case Paginate(input, _, _) => RootIsBase(input);
    case Project(input, _) => RootIsBase(input);
    case Join(left, _, _, _) => RootIsBase(left);
    case Aggregate(input, _, _) => RootIsBase(input);
    case Window(input, _) => RootIsBase(input);
    case Union(_) =>
  }

  lemma {:induction false} PathExact(input: Relation, e: Expr)
    requires Base(input).From?
    ensures var path := TraceToPath(input, e, Base(input).collection);
      && (path.Some? <==> RootField(input, e))
      && (path.Some? ==> TraceExpr(input, e) == FromField(Base(input).collection, path.value))
  {
    var root := Base(input).collection;
    TraceAgrees(input, e, root);
    if e.GetField? {
      PathExact(input, e.column);
    }
  }

  /** A query document is made exactly of the translatable conditions. */
  lemma {:induction false} QueryExact(input: Relation, condition: Expr)
    ensures MakeQuery(input, condition).Some? <==> Translatable(input, condition)
  {
    RootIsBase(input);
    if Base(input).From? {
      match condition
      case Compare(_, left, _) => PathExact(input, left);
      case And(left, right) => QueryExact(input, left); QueryExact(input, right);
      case Or(left, right) => QueryExact(input, left); QueryExact(input, right);
      case IsNull(expr) => PathExact(input, expr);
      case IsNotNull(expr) => PathExact(input, expr);
      case _ =>
    } else {
      NoRootField(input, condition);
    }
  }

  lemma {:induction false} NoRootField(input: Relation, condition: Expr)
    requires !Base(input).From?
    ensures !Translatable(input, condition)
  {
    match condition
    case And(left, _) => NoRootField(input, left);
    case Or(left, _) => NoRootField(input, left);
    case _ =>
  }

  // ----- what the query asks of a document -----

  /** The columns of a tree as far as they are fields of the root documents, read from one of these. */
  function RootRow(input: Relation, doc: Value): (row: Row)
    requires Base(input).From?
    ensures |row| == ColumnCount(input)
  {
    seq(ColumnCount(input), i requires 0 <= i < ColumnCount(input) =>
      match TraceColumn(input, i)
      case FromField(collection, path) => if collection == Base(input).collection then AtPath(doc, path) else Null
      case Computed => Null)
  }

  lemma {:induction false} RootFieldValue(sem: Semantics, input: Relation, e: Expr, doc: Value)
    requires RootField(input, e) && Traceable(input) && UndottedExpr(e)
    ensures Eval(sem, e, RootRow(input, doc)) == AtPath(doc, TraceExpr(input, e).path)
  {
    match e
    case Column(index) => if index >= ColumnCount(input) { NoOriginBeyond(input, index); }
    case GetField(column, field) =>
      var path :| TraceExpr(input, column) == FromField(Base(input).collection, path);
      RootFieldValue(sem, input, column, doc);
      AtPathField(doc, path, field);
  }

  /** A document satisfies the query exactly if its fields satisfy the condition. */
  lemma {:induction false} QueryMeans(sem: Semantics, input: Relation, condition: Expr, doc: Value)
    requires Translatable(input, condition) && Traceable(input) && UndottedCondition(condition)
    ensures MakeQuery(input, condition).Some? && Base(input).From?
    ensures Satisfies(sem, MakeQuery(input, condition).value, doc)
       <==> Truthy(Eval(sem, condition, RootRow(input, doc)))
  {
    QueryExact(input, condition);
    RootIsBase(input);
    match condition
    case Compare(_, left, _) => PathExact(input, left); RootFieldValue(sem, input, left, doc);
    case And(left, right) => QueryMeans(sem, input, left, doc); QueryMeans(sem, input, right, doc);
    case Or(left, right) => QueryMeans(sem, input, left, doc); QueryMeans(sem, input, right, doc);
    case IsNull(expr) => PathExact(input, expr); RootFieldValue(sem, input, expr, doc);
    case IsNotNull(expr) => PathExact(input, expr); RootFieldValue(sem, input, expr, doc);
  }

  // ----- the filter that is found -----

  ghost predicate TranslatableFilter(r: Relation) {
    r.Filter? && Translatable(r.input, r.condition)
  }

  /** The outermost translatable filter on the spine. */
  ghost predicate Outermost(r: Relation, k: nat) {
    && k < |Spine(r)| && TranslatableFilter(Spine(r)[k])
    && forall j :: 0 <= j < k ==> !TranslatableFilter(Spine(r)[j])
  }

  /**
   An early match is found exactly if some filter on the spine has a translatable condition, and it is
   the query of the outermost of these.
   */
  lemma {:induction false} EarlyMatchExact(r: Relation)
    ensures ExtractEarlyMatch(r).Some? <==> exists k :: 0 <= k < |Spine(r)| && TranslatableFilter(Spine(r)[k])
    ensures forall k: nat :: Outermost(r, k) ==>
      ExtractEarlyMatch(r) == MakeQuery(Spine(r)[k].input, Spine(r)[k].condition)
  {
    match r
    case From(_, _) =>
    case Filter(input, condition) =>
      QueryExact(input, condition);
      EarlyMatchExact(input);
      SpineStep(r, input);
    case Sort(input, _) => EarlyMatchExact(input); SpineStep(r, input);
    case Paginate(input, _, _) => EarlyMatchExact(input); SpineStep(r, input);
    case Project(input, _) => EarlyMatchExact(input); SpineStep(r, input);
    case Join(left, _, _, _) => EarlyMatchExact(left); SpineStep(r, left);
    case Aggregate(input, _, _) => EarlyMatchExact(input); SpineStep(r, input);
    case Window(input, _) => EarlyMatchExact(input); SpineStep(r, input);
    case Union(_) =>
  }

  lemma SpineStep(r: Relation, input: Relation)
    requires Spine(r) == [r] + Spine(input)
    ensures (exists k :: 0 <= k < |Spine(r)| && TranslatableFilter(Spine(r)[k]))
       <==> TranslatableFilter(r) || exists k :: 0 <= k < |Spine(input)| && TranslatableFilter(Spine(input)[k])
    ensures forall k: nat :: Outermost(r, k) && k > 0 ==> Outermost(input, k - 1)
    ensures forall k: nat :: Outermost(r, k) && TranslatableFilter(r) ==> k == 0
  {
    assert forall k :: 0 <= k < |Spine(input)| ==> Spine(r)[k + 1] == Spine(input)[k];
    forall k: nat | Outermost(r, k) && k > 0 ensures Outermost(input, k - 1) {
      forall j | 0 <= j < k - 1 ensures !TranslatableFilter(Spine(input)[j]) {
        assert Spine(r)[j + 1] == Spine(input)[j];
      }
    }
  }
}
