/**
 Where lifting a filter must stop. For each shape that a lifted condition does not pass, the match is
 harmless under an exact condition.
 */
module EarlyMatchLimits {
  import opened Options
  import opened Text
  import opened Values
  import opened Relations
  import opened ColumnOrigins
  import opened OptimizeFilters

  /** Prepending the extracted match to the root collection's documents never changes the rows. */
  ghost predicate MatchHarmless(sem: Semantics, r: Relation) {
    && ExtractEarlyMatch(r).Some? && RootCollection(r).Some?
    && forall db: Database {:trigger Rows(sem, db, None, r)} ::
         var docs := db(RootCollection(r).value);
         Rows(sem, db, Some(MatchDocs(sem, ExtractEarlyMatch(r).value, docs)), r) == Rows(sem, db, None, r)
  }

  /** A database in which every collection has the same documents. */
  function Everywhere(docs: seq<Value>): Database {
    _ => docs
  }

  lemma HarmlessOn(sem: Semantics, r: Relation, docs: seq<Value>)
    requires MatchHarmless(sem, r)
    ensures var db, matched := Everywhere(docs), MatchDocs(sem, ExtractEarlyMatch(r).value, docs);
      Rows(sem, db, Some(matched), r) == Rows(sem, db, Some(docs), r)
  {
    RootRows(sem, Everywhere(docs), r);
    assert Rows(sem, Everywhere(docs), None, r) == Rows(sem, Everywhere(docs), Some(docs), r);
  }

  lemma LiftableHarmless(sem: Semantics, r: Relation)
    requires Ordered(sem) && ArityConsistent(r) && Liftable(r) && ExtractEarlyMatch(r).Some?
    ensures MatchHarmless(sem, r)
  {
    ExtractedHasRoot(r);
    forall db: Database
      ensures var docs := db(RootCollection(r).value);
        Rows(sem, db, Some(MatchDocs(sem, ExtractEarlyMatch(r).value, docs)), r) == Rows(sem, db, None, r)
    {
      RootRows(sem, db, r);
      EarlyMatchSound(sem, db, db(RootCollection(r).value), r);
    }
  }

  /** A condition on a collection leaf that has a query document. */
  predicate LeafCondition(leaf: Relation, p: Expr) {
    leaf.From? && MakeQuery(leaf, p).Some? && UndottedCondition(p)
  }

  /** One document meets the query, another does not. */
  predicate Separates(sem: Semantics, q: Query, good: Value, bad: Value) {
    Satisfies(sem, q, good) && !Satisfies(sem, q, bad)
  }

  // ----- pagination -----

  /** `n` documents the filter drops and one it keeps. */
  function GoodAfter(n: nat, good: Value, bad: Value): seq<Value> {
    if n == 0 then [good] else [bad] + GoodAfter(n - 1, good, bad)
  }

  lemma {:induction false} GoodAfterRows(columns: seq<string>, n: nat, good: Value, bad: Value)
    ensures var rows := FromRows(columns, GoodAfter(n, good, bad));
      && |rows| == n + 1 && rows[n] == DocRow(columns, good)
      && forall i :: 0 <= i < n ==> rows[i] == DocRow(columns, bad)
  {
    if n > 0 {
      GoodAfterRows(columns, n - 1, good, bad);
      var rows := FromRows(columns, GoodAfter(n, good, bad));
      assert rows[1..] == FromRows(columns, GoodAfter(n - 1, good, bad));
    }
  }

  lemma {:induction false} GoodAfterMatch(sem: Semantics, q: Query, n: nat, good: Value, bad: Value)
    requires Separates(sem, q, good, bad)
    ensures MatchDocs(sem, q, GoodAfter(n, good, bad)) == [good]
  {
    if n > 0 {
      GoodAfterMatch(sem, q, n - 1, good, bad);
      assert GoodAfter(n, good, bad)[1..] == GoodAfter(n - 1, good, bad);
    } else {
      assert [good][1..] == [];
    }
  }

  lemma PageFilterRows(sem: Semantics, db: Database, docs: seq<Value>, leaf: Relation, p: Expr, fetch: Option<nat>,
                       skip: nat)
    requires leaf.From?
    ensures Rows(sem, db, Some(docs), Filter(Paginate(leaf, fetch, skip), p))
         == FilterRows(sem, p, PageRows(FromRows(leaf.columns, docs), fetch, skip))
  {
    var paged := Paginate(leaf, fetch, skip);
    assert Rows(sem, db, Some(docs), leaf) == FromRows(leaf.columns, docs);
    assert Rows(sem, db, Some(docs), paged) == PageRows(FromRows(leaf.columns, docs), fetch, skip);
  }

  lemma PageQuery(leaf: Relation, p: Expr, fetch: Option<nat>, skip: nat)
    requires LeafCondition(leaf, p)
    ensures var r := Filter(Paginate(leaf, fetch, skip), p);
      ExtractEarlyMatch(r) == MakeQuery(leaf, p) && RootCollection(r) == Some(leaf.collection)
  {
    QueryThrough(Paginate(leaf, fetch, skip), leaf, p);
    assert RootCollection(Paginate(leaf, fetch, skip)) == RootCollection(leaf);
  }

  /** A pagination that keeps all rows or none lets the filter through. */
  lemma TrivialPageHarmless(sem: Semantics, leaf: Relation, p: Expr, fetch: Option<nat>, skip: nat)
    requires Ordered(sem) && LeafCondition(leaf, p)
    requires fetch == Some(0) || (skip == 0 && fetch.None?)
    ensures MatchHarmless(sem, Filter(Paginate(leaf, fetch, skip), p))
  {
    var r := Filter(Paginate(leaf, fetch, skip), p);
    var q := MakeQuery(leaf, p).value;
    PageQuery(leaf, p, fetch, skip);
    forall db: Database
      ensures Rows(sem, db, Some(MatchDocs(sem, q, db(leaf.collection))), r) == Rows(sem, db, None, r)
    {
      var docs := db(leaf.collection);
      var rows, matched := FromRows(leaf.columns, docs), FromRows(leaf.columns, MatchDocs(sem, q, docs));
      RootRows(sem, db, r);
      PageFilterRows(sem, db, docs, leaf, p, fetch, skip);
      PageFilterRows(sem, db, MatchDocs(sem, q, docs), leaf, p, fetch, skip);
      FilterLeaf(sem, leaf, p, docs);
      FilterLeaf(sem, leaf, p, MatchDocs(sem, q, docs));
      MatchTwice(sem, q, docs);
      assert fetch.None? ==> PageRows(rows, fetch, skip) == rows && PageRows(matched, fetch, skip) == matched;
      assert fetch.Some? ==> PageRows(rows, fetch, skip) == [] && PageRows(matched, fetch, skip) == [];
    }
  }

  /** What the filter keeps of a page of the sample documents and of the matching document. */
  lemma SamplePages(sem: Semantics, leaf: Relation, p: Expr, fetch: Option<nat>, skip: nat, good: Value, bad: Value)
    requires LeafCondition(leaf, p) && Separates(sem, MakeQuery(leaf, p).value, good, bad)
    requires fetch != Some(0) && (skip > 0 || fetch.Some?)
    ensures var n := if skip > 0 then skip else fetch.value;
      FilterRows(sem, p, PageRows(FromRows(leaf.columns, GoodAfter(n, good, bad)), fetch, skip))
      != FilterRows(sem, p, PageRows(FromRows(leaf.columns, [good]), fetch, skip))
  {
    var n := if skip > 0 then skip else fetch.value;
    var kept := [DocRow(leaf.columns, good)];
    LeafQuery(sem, leaf, p, good);
    LeafQuery(sem, leaf, p, bad);
    GoodAfterRows(leaf.columns, n, good, bad);
    FilterUniform(sem, p, kept, true);
    assert FromRows(leaf.columns, [good]) == kept;
    var page := PageRows(FromRows(leaf.columns, GoodAfter(n, good, bad)), fetch, skip);
    if skip > 0 {
      assert page == kept && PageRows(kept, fetch, skip) == [];
    } else {
      FilterUniform(sem, p, page, false);
      assert PageRows(kept, fetch, skip) == kept;
    }
  }

  /** A pagination that may drop rows does not. */
  lemma EffectivePageHarmful(sem: Semantics, leaf: Relation, p: Expr, fetch: Option<nat>, skip: nat, good: Value,
                             bad: Value)
    requires LeafCondition(leaf, p) && Separates(sem, MakeQuery(leaf, p).value, good, bad)
    requires fetch != Some(0) && (skip > 0 || fetch.Some?)
    ensures !MatchHarmless(sem, Filter(Paginate(leaf, fetch, skip), p))
  {
    var r := Filter(Paginate(leaf, fetch, skip), p);
    var q := MakeQuery(leaf, p).value;
    var docs := GoodAfter(if skip > 0 then skip else fetch.value, good, bad);
    PageQuery(leaf, p, fetch, skip);
    GoodAfterMatch(sem, q, if skip > 0 then skip else fetch.value, good, bad);
    SamplePages(sem, leaf, p, fetch, skip, good, bad);
    PageFilterRows(sem, Everywhere(docs), docs, leaf, p, fetch, skip);
    PageFilterRows(sem, Everywhere(docs), [good], leaf, p, fetch, skip);
    if MatchHarmless(sem, r) {
      HarmlessOn(sem, r, docs);
    }
  }

  /**
   A filter over a page of a collection: for every condition that some document meets and some does
   not, the match is harmless exactly if the pagination keeps all rows or none.
   */
  lemma PaginationExact(sem: Semantics, leaf: Relation, p: Expr, fetch: Option<nat>, skip: nat, good: Value, bad: Value)
    requires Ordered(sem) && LeafCondition(leaf, p) && Separates(sem, MakeQuery(leaf, p).value, good, bad)
    ensures MatchHarmless(sem, Filter(Paginate(leaf, fetch, skip), p))
       <==> fetch == Some(0) || (skip == 0 && fetch.None?)
  {
    if fetch == Some(0) || (skip == 0 && fetch.None?) {
      TrivialPageHarmless(sem, leaf, p, fetch, skip);
    } else {
      EffectivePageHarmful(sem, leaf, p, fetch, skip, good, bad);
    }
  }

  // ----- windows -----

  /** The windowed rows, from document `k` on, of the documents that satisfy the query. */
  function WindowsKept(sem: Semantics, columns: seq<string>, exprs: seq<Expr>, q: Query, docs: seq<Value>,
                       k: nat): seq<Row>
    requires k <= |docs|
    decreases |docs| - k
  {
    if k == |docs| then []
    else
      var rest := WindowsKept(sem, columns, exprs, q, docs, k + 1);
      if Satisfies(sem, q, docs[k]) then [WindowRow(sem, exprs, FromRows(columns, docs), k)] + rest else rest
  }

  /** The position of document `k` once another document is put in at position `at`. */
  function Shift(at: nat, k: nat): nat {
    if k < at then k else k + 1
  }

  /** No window function sees, at a document that satisfies the query, whether one that does not is there. */
  ghost predicate WindowsIgnore(sem: Semantics, columns: seq<string>, exprs: seq<Expr>, q: Query) {
    forall a: seq<Value>, d: Value, b: seq<Value>, k: nat {:trigger FromRows(columns, a + [d] + b), Shift(|a|, k)} ::
      !Satisfies(sem, q, d) && k < |a + b| && Satisfies(sem, q, (a + b)[k]) ==>
        forall j :: 0 <= j < |exprs| ==>
          sem.window(exprs[j], FromRows(columns, a + [d] + b), Shift(|a|, k))
          == sem.window(exprs[j], FromRows(columns, a + b), k)
  }

  lemma {:induction false} WindowQuery(leaf: Relation, exprs: seq<Expr>, p: Expr)
    requires leaf.From?
    ensures MakeQuery(Window(leaf, exprs), p) == MakeQuery(leaf, p)
    ensures MakeQuery(leaf, p).Some? ==> ColumnsBelow(p, |leaf.columns|)
  {
    match p
    case Compare(_, left, _) => WindowPath(leaf, exprs, left);
    case And(left, right) => WindowQuery(leaf, exprs, left); WindowQuery(leaf, exprs, right);
    case Or(left, right) => WindowQuery(leaf, exprs, left); WindowQuery(leaf, exprs, right);
    case IsNull(expr) => WindowPath(leaf, exprs, expr);
    case IsNotNull(expr) => WindowPath(leaf, exprs, expr);
    case _ =>
  }

  lemma {:induction false} WindowPath(leaf: Relation, exprs: seq<Expr>, e: Expr)
    requires leaf.From?
    ensures TraceToPath(Window(leaf, exprs), e, leaf.collection) == TraceToPath(leaf, e, leaf.collection)
    ensures TraceToPath(leaf, e, leaf.collection).Some? ==> ColumnsBelow(e, |leaf.columns|)
  {
    match e
    case GetField(column, _) => WindowPath(leaf, exprs, column);
    case _ =>
  }

  /** The filter above a window keeps the windowed rows of the documents that satisfy its query. */
  lemma {:induction false} FilterWindows(sem: Semantics, leaf: Relation, exprs: seq<Expr>, p: Expr, docs: seq<Value>,
                                         k: nat)
    requires LeafCondition(leaf, p) && k <= |docs|
    ensures FilterRows(sem, p, WindowRows(sem, exprs, FromRows(leaf.columns, docs))[k..])
         == WindowsKept(sem, leaf.columns, exprs, MakeQuery(leaf, p).value, docs, k)
    decreases |docs| - k
  {
    var rows := FromRows(leaf.columns, docs);
    var windowed := WindowRows(sem, exprs, rows);
    if k < |docs| {
      FilterWindows(sem, leaf, exprs, p, docs, k + 1);
      WindowQuery(leaf, exprs, p);
      LeafQuery(sem, leaf, p, docs[k]);
      assert windowed[k] == rows[k] + windowed[k][|rows[k]|..];
      EvalLeading(sem, p, rows[k], windowed[k][|rows[k]|..]);
      assert windowed[k..][1..] == windowed[k + 1..];
    }
  }

  lemma WindowFilterRows(sem: Semantics, db: Database, docs: seq<Value>, leaf: Relation, exprs: seq<Expr>, p: Expr)
    requires LeafCondition(leaf, p)
    ensures Rows(sem, db, Some(docs), Filter(Window(leaf, exprs), p))
         == WindowsKept(sem, leaf.columns, exprs, MakeQuery(leaf, p).value, docs, 0)
  {
    var windowed := WindowRows(sem, exprs, FromRows(leaf.columns, docs));
    FilterWindows(sem, leaf, exprs, p, docs, 0);
    assert Rows(sem, db, Some(docs), leaf) == FromRows(leaf.columns, docs);
    assert Rows(sem, db, Some(docs), Window(leaf, exprs)) == windowed[0..];
  }

  /** Taking out one document that does not satisfy the query changes none of the kept rows. */
  lemma {:induction false} TakeOut(sem: Semantics, columns: seq<string>, exprs: seq<Expr>, q: Query,
                                   a: seq<Value>, d: Value, b: seq<Value>, k: nat)
    requires WindowsIgnore(sem, columns, exprs, q) && !Satisfies(sem, q, d) && k <= |a + b|
    ensures WindowsKept(sem, columns, exprs, q, a + [d] + b, Shift(|a|, k))
         == WindowsKept(sem, columns, exprs, q, a + b, k)
    decreases |a + b| - k
  {
    if k < |a + b| {
      var with, without := a + [d] + b, a + b;
      TakeOut(sem, columns, exprs, q, a, d, b, k + 1);
      assert with[Shift(|a|, k)] == without[k];
      assert k + 1 == |a| ==> with[k + 1] == d;
      if Satisfies(sem, q, without[k]) {
        assert WindowRow(sem, exprs, FromRows(columns, with), Shift(|a|, k))
            == WindowRow(sem, exprs, FromRows(columns, without), k);
      }
    }
  }

  lemma {:induction false} TakeOutAll(sem: Semantics, columns: seq<string>, exprs: seq<Expr>, q: Query, a: seq<Value>,
                                      b: seq<Value>)
    requires WindowsIgnore(sem, columns, exprs, q)
    ensures WindowsKept(sem, columns, exprs, q, a + MatchDocs(sem, q, b), 0)
         == WindowsKept(sem, columns, exprs, q, a + b, 0)
    decreases |b|
  {
    if b != [] {
      assert a + b == a + [b[0]] + b[1..];
      if Satisfies(sem, q, b[0]) {
        TakeOutAll(sem, columns, exprs, q, a + [b[0]], b[1..]);
        assert a + MatchDocs(sem, q, b) == a + [b[0]] + MatchDocs(sem, q, b[1..]);
      } else {
        TakeOutAll(sem, columns, exprs, q, a, b[1..]);
        TakeOut(sem, columns, exprs, q, a, b[0], b[1..], 0);
        assert a == [] ==> (a + b)[0] == b[0];
      }
    }
  }

  lemma {:induction false} MatchAppend(sem: Semantics, q: Query, a: seq<Value>, b: seq<Value>)
    ensures MatchDocs(sem, q, a + b) == MatchDocs(sem, q, a) + MatchDocs(sem, q, b)
  {
    if a == [] {
      assert a + b == b;
    } else {
      MatchAppend(sem, q, a[1..], b);
      assert (a + b)[1..] == a[1..] + b;
    }
  }

  lemma {:induction false} WindowsSuffix(sem: Semantics, columns: seq<string>, exprs: seq<Expr>, q: Query,
                                         docs: seq<Value>, k: nat)
    requires k <= |docs|
    ensures var all, tail := WindowsKept(sem, columns, exprs, q, docs, 0), WindowsKept(sem, columns, exprs, q, docs, k);
      |tail| <= |all| && all[|all| - |tail|..] == tail
  {
    if k > 0 {
      WindowsSuffix(sem, columns, exprs, q, docs, k - 1);
      var all, tail := WindowsKept(sem, columns, exprs, q, docs, 0), WindowsKept(sem, columns, exprs, q, docs, k - 1);
      assert Satisfies(sem, q, docs[k - 1]) ==> all[|all| - |tail| + 1..] == tail[1..];
    }
  }

  lemma {:induction false} WindowsCount(sem: Semantics, columns: seq<string>, exprs: seq<Expr>, q: Query,
                                        docs: seq<Value>, k: nat)
    requires k <= |docs|
    ensures |WindowsKept(sem, columns, exprs, q, docs, k)| == |MatchDocs(sem, q, docs[k..])|
    decreases |docs| - k
  {
    if k < |docs| {
      WindowsCount(sem, columns, exprs, q, docs, k + 1);
      assert docs[k..] == [docs[k]] + docs[k + 1..];
    }
  }

  lemma HarmlessIgnores(sem: Semantics, leaf: Relation, exprs: seq<Expr>, p: Expr, a: seq<Value>, d: Value,
                        b: seq<Value>, k: nat)
    requires LeafCondition(leaf, p) && MatchHarmless(sem, Filter(Window(leaf, exprs), p))
    requires var q := MakeQuery(leaf, p).value;
      !Satisfies(sem, q, d) && k < |a + b| && Satisfies(sem, q, (a + b)[k])
    ensures WindowRow(sem, exprs, FromRows(leaf.columns, a + [d] + b), Shift(|a|, k))
         == WindowRow(sem, exprs, FromRows(leaf.columns, a + b), k)
  {
    var q, columns := MakeQuery(leaf, p).value, leaf.columns;
    var with, without, i := a + [d] + b, a + b, Shift(|a|, k);
    WindowQuery(leaf, exprs, p);
    MatchWithout(sem, q, a, d, b);
    SameWindows(sem, leaf, exprs, p, with);
    SameWindows(sem, leaf, exprs, p, without);
    TailMatches(sem, q, a, d, b, k);
    WindowsCount(sem, columns, exprs, q, with, i);
    WindowsCount(sem, columns, exprs, q, without, k);
    WindowsSuffix(sem, columns, exprs, q, with, i);
    WindowsSuffix(sem, columns, exprs, q, without, k);
    assert with[i] == without[k];
    assert WindowsKept(sem, columns, exprs, q, with, i)[0] == WindowsKept(sem, columns, exprs, q, without, k)[0];
  }

  lemma MatchWithout(sem: Semantics, q: Query, a: seq<Value>, d: Value, b: seq<Value>)
    requires !Satisfies(sem, q, d)
    ensures MatchDocs(sem, q, a + [d] + b) == MatchDocs(sem, q, a + b)
  {
    MatchAppend(sem, q, a + [d], b);
    MatchAppend(sem, q, a, [d]);
    MatchAppend(sem, q, a, b);
    assert [d][1..] == [];
  }

  lemma TailMatches(sem: Semantics, q: Query, a: seq<Value>, d: Value, b: seq<Value>, k: nat)
    requires !Satisfies(sem, q, d) && k <= |a + b|
    ensures MatchDocs(sem, q, (a + [d] + b)[Shift(|a|, k)..]) == MatchDocs(sem, q, (a + b)[k..])
  {
    if k < |a| {
      MatchWithout(sem, q, a[k..], d, b);
      DropWithin(a + [d], b, k);
      DropWithin(a, [d], k);
      DropWithin(a, b, k);
    } else {
      DropBeyond(a + [d], b, k + 1);
      DropBeyond(a, b, k);
    }
  }

  lemma SameWindows(sem: Semantics, leaf: Relation, exprs: seq<Expr>, p: Expr, docs: seq<Value>)
    requires LeafCondition(leaf, p) && MatchHarmless(sem, Filter(Window(leaf, exprs), p))
    ensures var q := MakeQuery(leaf, p).value;
      WindowsKept(sem, leaf.columns, exprs, q, MatchDocs(sem, q, docs), 0)
      == WindowsKept(sem, leaf.columns, exprs, q, docs, 0)
  {
    var q := MakeQuery(leaf, p).value;
    WindowQuery(leaf, exprs, p);
    HarmlessOn(sem, Filter(Window(leaf, exprs), p), docs);
    WindowFilterRows(sem, Everywhere(docs), docs, leaf, exprs, p);
    WindowFilterRows(sem, Everywhere(docs), MatchDocs(sem, q, docs), leaf, exprs, p);
  }

  /**
   A filter over a window of a collection: the match is harmless exactly if at documents the filter
   keeps no window function depends on any single document that it drops.
   */
  lemma WindowExact(sem: Semantics, leaf: Relation, exprs: seq<Expr>, p: Expr)
    requires LeafCondition(leaf, p)
    ensures MatchHarmless(sem, Filter(Window(leaf, exprs), p))
       <==> WindowsIgnore(sem, leaf.columns, exprs, MakeQuery(leaf, p).value)
  {
    var r, q := Filter(Window(leaf, exprs), p), MakeQuery(leaf, p).value;
    WindowQuery(leaf, exprs, p);
    if WindowsIgnore(sem, leaf.columns, exprs, q) {
      forall db: Database
        ensures Rows(sem, db, Some(MatchDocs(sem, q, db(leaf.collection))), r) == Rows(sem, db, None, r)
      {
        var docs := db(leaf.collection);
        RootRows(sem, db, r);
        WindowFilterRows(sem, db, docs, leaf, exprs, p);
        WindowFilterRows(sem, db, MatchDocs(sem, q, docs), leaf, exprs, p);
        TakeOutAll(sem, leaf.columns, exprs, q, [], docs);
        assert [] + docs == docs && [] + MatchDocs(sem, q, docs) == MatchDocs(sem, q, docs);
      }
    } else {
      if MatchHarmless(sem, r) {
        HarmlessWindowsIgnore(sem, leaf, exprs, p);
      }
    }
  }

  lemma HarmlessWindowsIgnore(sem: Semantics, leaf: Relation, exprs: seq<Expr>, p: Expr)
    requires LeafCondition(leaf, p) && MatchHarmless(sem, Filter(Window(leaf, exprs), p))
    ensures WindowsIgnore(sem, leaf.columns, exprs, MakeQuery(leaf, p).value)
  {
    var q := MakeQuery(leaf, p).value;
    forall a: seq<Value>, d: Value, b: seq<Value>, k: nat, j: nat
      | !Satisfies(sem, q, d) && k < |a + b| && Satisfies(sem, q, (a + b)[k]) && j < |exprs|
      ensures sem.window(exprs[j], FromRows(leaf.columns, a + [d] + b), Shift(|a|, k))
           == sem.window(exprs[j], FromRows(leaf.columns, a + b), k)
    {
      var with, without := FromRows(leaf.columns, a + [d] + b), FromRows(leaf.columns, a + b);
      HarmlessIgnores(sem, leaf, exprs, p, a, d, b, k);
      assert WindowRow(sem, exprs, with, Shift(|a|, k))[|leaf.columns| + j]
          == sem.window(exprs[j], with, Shift(|a|, k));
      assert WindowRow(sem, exprs, without, k)[|leaf.columns| + j] == sem.window(exprs[j], without, k);
    }
  }

  // ----- self-joins -----

  /** The condition reads columns from `n` on only. */
  predicate ColumnsFrom(e: Expr, n: nat) {
    match e
    case Column(index) => index >= n
    case Lit(_) => true
    case Compare(_, left, right) => ColumnsFrom(left, n) && ColumnsFrom(right, n)
    case And(left, right) => ColumnsFrom(left, n) && ColumnsFrom(right, n)
    case Or(left, right) => ColumnsFrom(left, n) && ColumnsFrom(right, n)
    case Not(expr) => ColumnsFrom(expr, n)
    case IsNull(expr) => ColumnsFrom(expr, n)
    case IsNotNull(expr) => ColumnsFrom(expr, n)
    case GetField(column, _) => ColumnsFrom(column, n)
    case Other(_, _) => false
  }

  /** An inner join of two leaves that read the same collection. */
  predicate SelfJoin(r: Relation) {
    r.Join? && r.left.From? && r.right.From? && r.joinType.Inner? && r.left.collection == r.right.collection
  }

  /** On a pair of documents, a condition on the right columns tests the right document. */
  lemma {:induction false} PairQuery(sem: Semantics, r: Relation, p: Expr, d: Value, d': Value)
    requires SelfJoin(r)
    requires MakeQuery(r, p).Some? && UndottedCondition(p) && ColumnsFrom(p, |r.left.columns|)
    ensures Truthy(Eval(sem, p, DocRow(r.left.columns, d) + DocRow(r.right.columns, d')))
         == Satisfies(sem, MakeQuery(r, p).value, d')
  {
    assert RootCollection(r) == Some(r.left.collection);
    match p
    case Compare(_, left, _) => PairPath(sem, r, left, d, d');
    case And(left, right) => PairQuery(sem, r, left, d, d'); PairQuery(sem, r, right, d, d');
    case Or(left, right) => PairQuery(sem, r, left, d, d'); PairQuery(sem, r, right, d, d');
    case IsNull(expr) => PairPath(sem, r, expr, d, d');
    case IsNotNull(expr) => PairPath(sem, r, expr, d, d');
  }

  lemma {:induction false} PairPath(sem: Semantics, r: Relation, e: Expr, d: Value, d': Value)
    requires SelfJoin(r)
    requires TraceToPath(r, e, r.left.collection).Some? && UndottedExpr(e) && ColumnsFrom(e, |r.left.columns|)
    ensures Eval(sem, e, DocRow(r.left.columns, d) + DocRow(r.right.columns, d'))
         == AtPath(d', TraceToPath(r, e, r.left.collection).value)
  {
    match e
    case Column(index) =>
      var l, right := DocRow(r.left.columns, d), DocRow(r.right.columns, d');
      assert TraceColumn(r, index) == TraceColumn(r.right, index - |l|);
      assert (l + right)[index] == right[index - |l|];
    case GetField(column, field) =>
      PairPath(sem, r, column, d, d');
      AtPathField(d', TraceToPath(r, column, r.left.collection).value, field);
  }

  lemma {:induction false} AllMatch(sem: Semantics, l: Row, rights: seq<Row>)
    ensures RightMatches(sem, [], l, rights) == rights
  {
    if rights != [] {
      AllMatch(sem, l, rights[1..]);
      assert OnMatch(sem, [], l, rights[0]);
      assert rights == [rights[0]] + rights[1..];
    }
  }

  /** Of a document joined to both documents the filter keeps the second pair. */
  lemma BlockFiltered(sem: Semantics, r: Relation, p: Expr, d: Value, good: Value, bad: Value)
    requires SelfJoin(r)
    requires MakeQuery(r, p).Some? && UndottedCondition(p) && ColumnsFrom(p, |r.left.columns|)
    requires Separates(sem, MakeQuery(r, p).value, good, bad)
    ensures var l, rights := DocRow(r.left.columns, d), FromRows(r.right.columns, [bad, good]);
      FilterRows(sem, p, AppendEach(l, rights)) == [l + DocRow(r.right.columns, good)]
  {
    var l := DocRow(r.left.columns, d);
    var first, second := l + DocRow(r.right.columns, bad), l + DocRow(r.right.columns, good);
    PairQuery(sem, r, p, d, bad);
    PairQuery(sem, r, p, d, good);
    assert AppendEach(l, FromRows(r.right.columns, [bad, good])) == [first] + [second];
    FilterCons(sem, p, first, [second]);
    FilterUniform(sem, p, [second], true);
  }

  lemma {:induction false} CrossFiltered(sem: Semantics, r: Relation, p: Expr, lefts: seq<Value>, good: Value,
                                         bad: Value)
    requires SelfJoin(r)
    requires MakeQuery(r, p).Some? && UndottedCondition(p) && ColumnsFrom(p, |r.left.columns|)
    requires Separates(sem, MakeQuery(r, p).value, good, bad)
    ensures var rights := FromRows(r.right.columns, [bad, good]);
      |FilterRows(sem, p,
                  JoinLeft(sem, [], Inner, |r.right.columns|, FromRows(r.left.columns, lefts), rights))| == |lefts|
  {
    var rights, rc := FromRows(r.right.columns, [bad, good]), |r.right.columns|;
    if lefts != [] {
      var l, rest := DocRow(r.left.columns, lefts[0]), FromRows(r.left.columns, lefts[1..]);
      assert FromRows(r.left.columns, lefts)[1..] == rest;
      CrossFiltered(sem, r, p, lefts[1..], good, bad);
      AllMatch(sem, l, rights);
      BlockFiltered(sem, r, p, lefts[0], good, bad);
      FilterAppend(sem, p, AppendEach(l, rights), JoinLeft(sem, [], Inner, rc, rest, rights));
    }
  }

  lemma RightTestHarmful(sem: Semantics, r: Relation, p: Expr, good: Value, bad: Value)
    requires SelfJoin(r) && r.on == []
    requires MakeQuery(r, p).Some? && UndottedCondition(p) && ColumnsFrom(p, |r.left.columns|)
    requires Separates(sem, MakeQuery(r, p).value, good, bad)
    ensures !MatchHarmless(sem, Filter(r, p))
  {
    var docs := [bad, good];
    var db := Everywhere(docs);
    GoodAfterMatch(sem, MakeQuery(r, p).value, 1, good, bad);
    assert GoodAfter(1, good, bad) == [bad] + GoodAfter(0, good, bad) == docs;
    CrossFiltered(sem, r, p, docs, good, bad);
    CrossFiltered(sem, r, p, [good], good, bad);
    assert Rows(sem, db, None, r.right) == FromRows(r.right.columns, docs);
    assert Rows(sem, db, Some(docs), r.left) == FromRows(r.left.columns, docs);
    assert Rows(sem, db, Some([good]), r.left) == FromRows(r.left.columns, [good]);
    if MatchHarmless(sem, Filter(r, p)) {
      HarmlessOn(sem, Filter(r, p), docs);
    }
  }

  /**
   A collection joined to itself without join conditions, and a condition on columns of one side, that
   some document meets and some does not: the match is harmless exactly if that is the left side.
   */
  lemma SelfJoinExact(sem: Semantics, collection: string, lefts: seq<string>, rights: seq<string>, p: Expr,
                      good: Value, bad: Value)
    requires var r := Join(From(collection, lefts), From(collection, rights), [], Inner);
      && Ordered(sem) && MakeQuery(r, p).Some? && UndottedCondition(p)
      && Separates(sem, MakeQuery(r, p).value, good, bad)
      && (ColumnsBelow(p, |lefts|) || ColumnsFrom(p, |lefts|))
    ensures var r := Join(From(collection, lefts), From(collection, rights), [], Inner);
      MatchHarmless(sem, Filter(r, p)) <==> ColumnsBelow(p, |lefts|)
  {
    var r := Join(From(collection, lefts), From(collection, rights), [], Inner);
    if ColumnsBelow(p, |lefts|) {
      LiftableHarmless(sem, Filter(r, p));
    } else {
      RightTestHarmful(sem, r, p, good, bad);
    }
  }

  // ----- dotted field names -----

  /** A comparison of a nested field of a column. */
  function FieldTest(op: CompareOp, index: nat, name: string, literal: Literal): Expr {
    Compare(op, GetField(Column(index), name), Lit(literal))
  }

  lemma FieldTestQuery(leaf: Relation, op: CompareOp, index: nat, name: string, literal: Literal)
    requires leaf.From? && index < |leaf.columns| && LiteralToBson(literal).Some?
    ensures MakeQuery(leaf, FieldTest(op, index, name, literal))
         == Some(FieldIs(leaf.columns[index] + "." + name, op, LiteralToBson(literal).value))
  {
    assert TraceToPath(leaf, Column(index), leaf.collection) == Some(leaf.columns[index]);
  }

  /** A document with which the filter and the match disagree: the filter keeps its row, the match drops it. */
  lemma DottedWitness(sem: Semantics, path: string, op: CompareOp, name: string, value: Value, w: Value)
      returns (doc: Value)
    requires '.' in name && Holds(op, sem.compare(w, value)) != Holds(op, sem.compare(Null, value))
    ensures Holds(op, sem.compare(Field(AtPath(doc, path), name), value))
    ensures !Satisfies(sem, FieldIs(path + "." + name, op, value), doc)
  {
    if Holds(op, sem.compare(w, value)) {
      doc := Nested(Split(path), Record(map[name := w]));
      DottedField(path, name, w);
    } else {
      var inner := Nested(Split(name), w);
      doc := Nested(Split(path), inner);
      SplitDotted(name);
      LookupNested(Split(path), inner);
      LookupNested(Split(name), w);
      SplitJoined(path, name);
      LookupAppend(doc, Split(path), Split(name));
    }
  }

  lemma DottedFieldHarmful(sem: Semantics, leaf: Relation, op: CompareOp, index: nat, name: string, literal: Literal,
                           w: Value)
    requires leaf.From? && index < |leaf.columns| && LiteralToBson(literal).Some? && '.' in name
    requires var value := LiteralToBson(literal).value;
      Holds(op, sem.compare(w, value)) != Holds(op, sem.compare(Null, value))
    ensures !MatchHarmless(sem, Filter(leaf, FieldTest(op, index, name, literal)))
  {
    var p, value := FieldTest(op, index, name, literal), LiteralToBson(literal).value;
    FieldTestQuery(leaf, op, index, name, literal);
    var doc := DottedWitness(sem, leaf.columns[index], op, name, value, w);
    var docs, row := [doc], DocRow(leaf.columns, doc);
    assert docs[1..] == [] && MatchDocs(sem, MakeQuery(leaf, p).value, docs) == [];
    assert Eval(sem, GetField(Column(index), name), row) == Field(row[index], name);
    assert FromRows(leaf.columns, docs) == [row];
    FilterUniform(sem, p, [row], true);
    assert Rows(sem, Everywhere(docs), Some(docs), leaf) == [row];
    assert Rows(sem, Everywhere(docs), Some([]), leaf) == [];
    if MatchHarmless(sem, Filter(leaf, p)) {
      HarmlessOn(sem, Filter(leaf, p), docs);
    }
  }

  /**
   A comparison of a nested field that tells some value from null: the match is harmless exactly if the
   field's name has no dot.
   */
  lemma DottedFieldExact(sem: Semantics, leaf: Relation, op: CompareOp, index: nat, name: string, literal: Literal,
                         w: Value)
    requires Ordered(sem) && leaf.From? && index < |leaf.columns| && LiteralToBson(literal).Some?
    requires var value := LiteralToBson(literal).value;
      Holds(op, sem.compare(w, value)) != Holds(op, sem.compare(Null, value))
    ensures MatchHarmless(sem, Filter(leaf, FieldTest(op, index, name, literal))) <==> '.' !in name
  {
    var p := FieldTest(op, index, name, literal);
    FieldTestQuery(leaf, op, index, name, literal);
    if '.' in name {
      DottedFieldHarmful(sem, leaf, op, index, name, literal, w);
    } else {
      assert UndottedExpr(Column(index)) && UndottedExpr(GetField(Column(index), name));
      LiftableHarmless(sem, Filter(leaf, p));
    }
  }
}
