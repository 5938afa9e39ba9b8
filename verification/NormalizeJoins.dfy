/**
 Right, right-semi and right-anti joins are turned into their left counterparts with the inputs
 swapped. The normalized tree yields the same rows in the same order.
 */
module NormalizeJoins {
  import opened Options
  import opened Values
  import opened Relations

  // ----- the pass -----

  function SwapJoinOn(on: seq<JoinOn>): (swapped: seq<JoinOn>)
    ensures |swapped| == |on|
  {
    seq(|on|, k requires 0 <= k < |on| => JoinOn(on[k].right, on[k].left))
  }

  /** The projection that moves the right input's columns behind the left input's. */
  function ReorderedColumns(leftCount: nat, rightCount: nat): (exprs: seq<Expr>)
    ensures |exprs| == leftCount + rightCount
  {
    seq(leftCount + rightCount, k requires 0 <= k < leftCount + rightCount =>
      Column(if k < leftCount then rightCount + k else k - leftCount))
  }

  /** Fills the projection in two counting loops. */
  method ReorderColumns(leftCount: nat, rightCount: nat) returns (exprs: seq<Expr>)
    ensures exprs == ReorderedColumns(leftCount, rightCount)
    ensures forall l: Row, r: Row, sem | |l| == leftCount && |r| == rightCount ::
              EvalAll(sem, exprs, r + l) == l + r
  {
    exprs := [];
    for i := 0 to leftCount
      invariant |exprs| == i
      invariant forall k :: 0 <= k < i ==> exprs[k] == Column(rightCount + k)
    {
      exprs := exprs + [Column(rightCount + i)];
    }
    for i := 0 to rightCount
      invariant |exprs| == leftCount + i
      invariant forall k :: 0 <= k < leftCount ==> exprs[k] == Column(rightCount + k)
      invariant forall k :: leftCount <= k < leftCount + i ==> exprs[k] == Column(k - leftCount)
    {
      exprs := exprs + [Column(i)];
    }
    assert exprs == ReorderedColumns(leftCount, rightCount);
    forall l: Row, r: Row, sem | |l| == leftCount && |r| == rightCount
      ensures EvalAll(sem, exprs, r + l) == l + r
    {
      ReorderRestores(sem, l, r);
    }
  }

  function LeftCounterpart(kind: JoinType): JoinType
    requires kind.Right? || kind.RightSemi? || kind.RightAnti?
  {
    match kind
    case Right => Left
    case RightSemi => LeftSemi
    case RightAnti => LeftAnti
  }

  function Normalize(r: Relation): Relation {
    match r
    case From(_, _) => r
    case Filter(input, condition) => Filter(Normalize(input), condition)
    case Sort(input, keys) => Sort(Normalize(input), keys)
    case Paginate(input, fetch, skip) => Paginate(Normalize(input), fetch, skip)
    case Project(input, exprs) => Project(Normalize(input), exprs)
    case Join(left, right, on, kind) =>
      if kind.Right? || kind.RightSemi? || kind.RightAnti? then
        var swapped := Join(Normalize(right), Normalize(left), SwapJoinOn(on), LeftCounterpart(kind));
        if kind.Right? then Project(swapped, ReorderedColumns(ColumnCount(left), ColumnCount(right)))
        else swapped
      else Join(Normalize(left), Normalize(right), on, kind)
    case Aggregate(input, groupBy, aggregates) => Aggregate(Normalize(input), groupBy, aggregates)
    case Window(input, exprs) => Window(Normalize(input), exprs)
    case Union(relations) =>
      Union(seq(|relations|, i requires 0 <= i < |relations| => Normalize(relations[i])))
  }

  // ----- shape -----

  predicate NoRightJoins(r: Relation) {
    match r
    case From(_, _) => true
    case Filter(input, _) => NoRightJoins(input)
    case Sort(input, _) => NoRightJoins(input)
    case Paginate(input, _, _) => NoRightJoins(input)
    case Project(input, _) => NoRightJoins(input)
    case Join(left, right, _, kind) =>
      !kind.Right? && !kind.RightSemi? && !kind.RightAnti? && NoRightJoins(left) && NoRightJoins(right)
    case Aggregate(input, _, _) => NoRightJoins(input)
    case Window(input, _) => NoRightJoins(input)
    case Union(relations) => forall i :: 0 <= i < |relations| ==> NoRightJoins(relations[i])
  }

  /** The pass keeps the number of columns of every relation, and removes every right join. */
  lemma {:induction false} NormalizeShape(r: Relation)
    ensures ColumnCount(Normalize(r)) == ColumnCount(r)
    ensures NoRightJoins(Normalize(r))
    ensures ArityConsistent(r) ==> ArityConsistent(Normalize(r))
  {
    match r
    case From(_, _) =>
    case Filter(input, _) => NormalizeShape(input);
    case Sort(input, _) => NormalizeShape(input);
    case Paginate(input, _, _) => NormalizeShape(input);
    case Project(input, _) => NormalizeShape(input);
    case Join(left, right, _, _) => NormalizeShape(left); NormalizeShape(right);
    case Aggregate(input, _, _) => NormalizeShape(input);
    case Window(input, _) => NormalizeShape(input);
    case Union(relations) =>
      forall i | 0 <= i < |relations|
        ensures ColumnCount(Normalize(relations[i])) == ColumnCount(relations[i])
        ensures NoRightJoins(Normalize(relations[i]))
        ensures ArityConsistent(relations[i]) ==> ArityConsistent(Normalize(relations[i]))
      {
        NormalizeShape(relations[i]);
      }
  }

  /** The pass leaves exactly the trees without right joins unchanged; so a second pass does nothing. */
  lemma {:induction false} NormalizeFixedPoint(r: Relation)
    ensures Normalize(r) == r <==> NoRightJoins(r)
    ensures Normalize(Normalize(r)) == Normalize(r)
  {
    NormalizeShape(r);
    NormalFormUnchanged(Normalize(r));
    if NoRightJoins(r) {
      NormalFormUnchanged(r);
    }
  }

  lemma {:induction false} NormalFormUnchanged(r: Relation)
    requires NoRightJoins(r)
    ensures Normalize(r) == r
  {
    match r
    case From(_, _) =>
    case Filter(input, _) => NormalFormUnchanged(input);
    case Sort(input, _) => NormalFormUnchanged(input);
    case Paginate(input, _, _) => NormalFormUnchanged(input);
    case Project(input, _) => NormalFormUnchanged(input);
    case Join(left, right, _, _) => NormalFormUnchanged(left); NormalFormUnchanged(right);
    case Aggregate(input, _, _) => NormalFormUnchanged(input);
    case Window(input, _) => NormalFormUnchanged(input);
    case Union(relations) =>
      forall i | 0 <= i < |relations| ensures Normalize(relations[i]) == relations[i] {
        NormalFormUnchanged(relations[i]);
      }
  }

  // ----- row widths -----

  ghost predicate Wide(rows: seq<Row>, n: nat) {
    forall i :: 0 <= i < |rows| ==> |rows[i]| == n
  }

  /** Every row of an arity-consistent relation has as many values as the relation has columns. */
  lemma {:induction false} RowWidth(sem: Semantics, db: Database, root: Option<seq<Value>>, r: Relation)
    requires ArityConsistent(r)
    ensures Wide(Rows(sem, db, root, r), ColumnCount(r))
    decreases r
  {
    match r
    case From(_, _) =>
    case Filter(input, condition) =>
      RowWidth(sem, db, root, input);
      FilterWidth(sem, condition, Rows(sem, db, root, input), ColumnCount(input));
    case Sort(input, keys) =>
      RowWidth(sem, db, root, input);
      SortWidth(sem, keys, Rows(sem, db, root, input), ColumnCount(input));
    case Paginate(input, _, _) => RowWidth(sem, db, root, input);
    case Project(input, _) =>
    case Join(left, right, on, kind) =>
      RowWidth(sem, db, root, left);
      RowWidth(sem, db, None, right);
      var ls, rs := Rows(sem, db, root, left), Rows(sem, db, None, right);
      var lc, rc := ColumnCount(left), ColumnCount(right);
      JoinWidth(sem, on, kind, lc, rc, ls, rs);
    case Aggregate(input, groupBy, aggregates) =>
      GroupWidth(sem, groupBy, aggregates, Rows(sem, db, root, input));
    case Window(input, exprs) => RowWidth(sem, db, root, input);
    case Union(relations) => UnionWidth(sem, db, root, relations, ColumnCount(r));
  }

  lemma {:induction false} UnionWidth(sem: Semantics, db: Database, root: Option<seq<Value>>, rs: seq<Relation>, n: nat)
    requires forall i :: 0 <= i < |rs| ==> ArityConsistent(rs[i]) && ColumnCount(rs[i]) == n
    ensures Wide(UnionRows(sem, db, root, rs), n)
    decreases rs
  {
    if rs != [] {
      RowWidth(sem, db, root, rs[0]);
      UnionWidth(sem, db, None, rs[1..], n);
    }
  }

  lemma {:induction false} FilterWidth(sem: Semantics, condition: Expr, rows: seq<Row>, n: nat)
    requires Wide(rows, n)
    ensures Wide(FilterRows(sem, condition, rows), n)
  {
    if rows != [] {
      FilterWidth(sem, condition, rows[1..], n);
    }
  }

  lemma {:induction false} InsertWidth(sem: Semantics, keys: seq<SortKey>, row: Row, rows: seq<Row>, n: nat)
    requires |row| == n && Wide(rows, n)
    ensures Wide(InsertRow(sem, keys, row, rows), n)
  {
    if rows != [] {
      InsertWidth(sem, keys, row, rows[1..], n);
    }
  }

  lemma {:induction false} SortWidth(sem: Semantics, keys: seq<SortKey>, rows: seq<Row>, n: nat)
    requires Wide(rows, n)
    ensures Wide(SortRows(sem, keys, rows), n)
  {
    if rows != [] {
      SortWidth(sem, keys, rows[1..], n);
      InsertWidth(sem, keys, rows[0], SortRows(sem, keys, rows[1..]), n);
    }
  }

  lemma {:induction false} GroupWidth(sem: Semantics, groupBy: seq<Expr>, aggregates: seq<Expr>, rows: seq<Row>)
    ensures Wide(GroupRows(sem, groupBy, aggregates, rows), |groupBy| + |aggregates|)
    decreases |rows|
  {
    if rows != [] {
      var key := EvalAll(sem, groupBy, rows[0]);
      GroupWidth(sem, groupBy, aggregates, ByKey(sem, groupBy, key, false, rows[1..]));
    }
  }

  lemma {:induction false} MatchWidth(sem: Semantics, on: seq<JoinOn>, l: Row, rights: seq<Row>, n: nat)
    requires Wide(rights, n)
    ensures Wide(RightMatches(sem, on, l, rights), n)
  {
    if rights != [] {
      MatchWidth(sem, on, l, rights[1..], n);
    }
  }

  lemma {:induction false} LeftMatchWidth(sem: Semantics, on: seq<JoinOn>, lefts: seq<Row>, r: Row, n: nat)
    requires Wide(lefts, n)
    ensures Wide(LeftMatches(sem, on, lefts, r), n)
  {
    if lefts != [] {
      LeftMatchWidth(sem, on, lefts[1..], r, n);
    }
  }

  function JoinCount(kind: JoinType, lc: nat, rc: nat): nat {
    if kind.LeftSemi? || kind.LeftAnti? then lc
    else if kind.RightSemi? || kind.RightAnti? then rc
    else lc + rc
  }

  lemma {:induction false} JoinLeftWidth(sem: Semantics, on: seq<JoinOn>, kind: JoinType, lc: nat, rc: nat,
                                         lefts: seq<Row>, rights: seq<Row>)
    requires Wide(lefts, lc) && Wide(rights, rc)
    requires kind.Inner? || kind.Left? || kind.LeftSemi? || kind.LeftAnti?
    ensures Wide(JoinLeft(sem, on, kind, rc, lefts, rights), JoinCount(kind, lc, rc))
  {
    if lefts != [] {
      MatchWidth(sem, on, lefts[0], rights, rc);
      JoinLeftWidth(sem, on, kind, lc, rc, lefts[1..], rights);
    }
  }

  lemma {:induction false} JoinRightWidth(sem: Semantics, on: seq<JoinOn>, kind: JoinType, lc: nat, rc: nat,
                                          lefts: seq<Row>, rights: seq<Row>)
    requires Wide(lefts, lc) && Wide(rights, rc)
    requires kind.Right? || kind.RightSemi? || kind.RightAnti?
    ensures Wide(JoinRight(sem, on, kind, lc, lefts, rights), JoinCount(kind, lc, rc))
  {
    if rights != [] {
      LeftMatchWidth(sem, on, lefts, rights[0], lc);
      JoinRightWidth(sem, on, kind, lc, rc, lefts, rights[1..]);
    }
  }

  lemma {:induction false} UnmatchedWidth(sem: Semantics, on: seq<JoinOn>, lc: nat, rc: nat,
                                          lefts: seq<Row>, rights: seq<Row>)
    requires Wide(rights, rc)
    ensures Wide(Unmatched(sem, on, lc, lefts, rights), lc + rc)
  {
    if rights != [] {
      UnmatchedWidth(sem, on, lc, rc, lefts, rights[1..]);
    }
  }

  lemma JoinWidth(sem: Semantics, on: seq<JoinOn>, kind: JoinType, lc: nat, rc: nat, lefts: seq<Row>, rights: seq<Row>)
    requires Wide(lefts, lc) && Wide(rights, rc)
    ensures Wide(JoinRows(sem, on, kind, lc, rc, lefts, rights), JoinCount(kind, lc, rc))
  {
    match kind
    case Right => JoinRightWidth(sem, on, kind, lc, rc, lefts, rights);
    case RightSemi => JoinRightWidth(sem, on, kind, lc, rc, lefts, rights);
    case RightAnti => JoinRightWidth(sem, on, kind, lc, rc, lefts, rights);
    case Full =>
      JoinLeftWidth(sem, on, Left, lc, rc, lefts, rights);
      UnmatchedWidth(sem, on, lc, rc, lefts, rights);
    case _ => JoinLeftWidth(sem, on, kind, lc, rc, lefts, rights);
  }

  // ----- meaning -----

  /** Evaluating the reordering projection on swapped columns restores their order. */
  lemma ReorderRestores(sem: Semantics, l: Row, r: Row)
    ensures EvalAll(sem, ReorderedColumns(|l|, |r|), r + l) == l + r
  {
  }

  lemma SwapOnMatch(sem: Semantics, on: seq<JoinOn>, l: Row, r: Row)
    requires Ordered(sem)
    ensures OnMatch(sem, SwapJoinOn(on), r, l) <==> OnMatch(sem, on, l, r)
  {
    var swapped := SwapJoinOn(on);
    forall k | 0 <= k < |on|
      ensures sem.compare(Eval(sem, swapped[k].left, r), Eval(sem, swapped[k].right, l)) == 0
         <==> sem.compare(Eval(sem, on[k].left, l), Eval(sem, on[k].right, r)) == 0
    {
      var x, y := Eval(sem, on[k].left, l), Eval(sem, on[k].right, r);
      assert sem.compare(x, y) < 0 <==> sem.compare(y, x) > 0;
      assert sem.compare(y, x) < 0 <==> sem.compare(x, y) > 0;
    }
    if OnMatch(sem, swapped, r, l) {
      assert forall k :: 0 <= k < |on| ==>
        sem.compare(Eval(sem, swapped[k].left, r), Eval(sem, swapped[k].right, l)) == 0;
    }
  }

  lemma {:induction false} SwapMatches(sem: Semantics, on: seq<JoinOn>, lefts: seq<Row>, r: Row)
    requires Ordered(sem)
    ensures RightMatches(sem, SwapJoinOn(on), r, lefts) == LeftMatches(sem, on, lefts, r)
  {
    if lefts != [] {
      SwapOnMatch(sem, on, lefts[0], r);
      SwapMatches(sem, on, lefts[1..], r);
    }
  }

  /** One block of the swapped join, reordered, is the block of the original right join. */
  lemma SwapBlock(sem: Semantics, lc: nat, rc: nat, matches: seq<Row>, r: Row)
    requires |r| == rc && Wide(matches, lc)
    ensures ProjectRows(sem, ReorderedColumns(lc, rc), LeftBlock(Left, lc, r, matches))
         == RightBlock(Right, lc, matches, r)
  {
    var exprs := ReorderedColumns(lc, rc);
    forall l: Row | |l| == lc ensures EvalAll(sem, exprs, r + l) == l + r {
      ReorderRestores(sem, l, r);
    }
    if matches == [] {
      assert |Nulls(lc)| == lc;
    }
  }

  lemma ProjectAppend(sem: Semantics, exprs: seq<Expr>, a: seq<Row>, b: seq<Row>)
    ensures ProjectRows(sem, exprs, a + b) == ProjectRows(sem, exprs, a) + ProjectRows(sem, exprs, b)
  {
  }

  lemma {:induction false} SwapRightJoin(sem: Semantics, on: seq<JoinOn>, lc: nat, rc: nat, lefts: seq<Row>,
                                         rights: seq<Row>)
    requires Ordered(sem) && Wide(lefts, lc) && Wide(rights, rc)
    ensures ProjectRows(sem, ReorderedColumns(lc, rc), JoinLeft(sem, SwapJoinOn(on), Left, lc, rights, lefts))
         == JoinRight(sem, on, Right, lc, lefts, rights)
  {
    if rights != [] {
      var r := rights[0];
      var exprs := ReorderedColumns(lc, rc);
      var matches := LeftMatches(sem, on, lefts, r);
      SwapMatches(sem, on, lefts, r);
      LeftMatchWidth(sem, on, lefts, r, lc);
      SwapBlock(sem, lc, rc, matches, r);
      SwapRightJoin(sem, on, lc, rc, lefts, rights[1..]);
      ProjectAppend(sem, exprs, LeftBlock(Left, lc, r, matches),
                    JoinLeft(sem, SwapJoinOn(on), Left, lc, rights[1..], lefts));
    }
  }

  lemma {:induction false} SwapSemiJoin(sem: Semantics, on: seq<JoinOn>, kind: JoinType, count: nat,
                                        lefts: seq<Row>, rights: seq<Row>)
    requires Ordered(sem) && (kind.RightSemi? || kind.RightAnti?)
    ensures JoinLeft(sem, SwapJoinOn(on), LeftCounterpart(kind), count, rights, lefts)
         == JoinRight(sem, on, kind, count, lefts, rights)
  {
    if rights != [] {
      SwapMatches(sem, on, lefts, rights[0]);
      SwapSemiJoin(sem, on, kind, count, lefts, rights[1..]);
    }
  }

  lemma NormalizeRightJoin(sem: Semantics, db: Database, r: Relation)
    requires Ordered(sem) && ArityConsistent(r) && r.Join? && r.joinType.Right?
    requires Rows(sem, db, None, Normalize(r.left)) == Rows(sem, db, None, r.left)
    requires Rows(sem, db, None, Normalize(r.right)) == Rows(sem, db, None, r.right)
    ensures Rows(sem, db, None, Normalize(r)) == Rows(sem, db, None, r)
  {
    var Join(left, right, on, _) := r;
    var lefts, rights := Rows(sem, db, None, left), Rows(sem, db, None, right);
    var lc, rc := ColumnCount(left), ColumnCount(right);
    NormalizeShape(left);
    NormalizeShape(right);
    RowWidth(sem, db, None, left);
    RowWidth(sem, db, None, right);
    var swapped := Join(Normalize(right), Normalize(left), SwapJoinOn(on), Left);
    assert Rows(sem, db, None, swapped) == JoinLeft(sem, SwapJoinOn(on), Left, lc, rights, lefts);
    assert Normalize(r) == Project(swapped, ReorderedColumns(lc, rc));
    SwapRightJoin(sem, on, lc, rc, lefts, rights);
  }

  lemma NormalizeSemiJoin(sem: Semantics, db: Database, r: Relation)
    requires Ordered(sem) && r.Join? && (r.joinType.RightSemi? || r.joinType.RightAnti?)
    requires Rows(sem, db, None, Normalize(r.left)) == Rows(sem, db, None, r.left)
    requires Rows(sem, db, None, Normalize(r.right)) == Rows(sem, db, None, r.right)
    ensures Rows(sem, db, None, Normalize(r)) == Rows(sem, db, None, r)
  {
    var Join(left, right, on, kind) := r;
    var lefts, rights := Rows(sem, db, None, left), Rows(sem, db, None, right);
    NormalizeShape(left);
    NormalizeShape(right);
    SwapSemiJoin(sem, on, kind, ColumnCount(left), lefts, rights);
  }

  /** Normalization preserves meaning: the same rows, in the same order, on every database. */
  lemma {:induction false} NormalizePreservesRows(sem: Semantics, db: Database, r: Relation)
    requires Ordered(sem) && ArityConsistent(r)
    ensures Rows(sem, db, None, Normalize(r)) == Rows(sem, db, None, r)
    decreases r
  {
    match r
    case From(_, _) =>
    case Filter(input, _) => NormalizePreservesRows(sem, db, input);
    case Sort(input, _) => NormalizePreservesRows(sem, db, input);
    case Paginate(input, _, _) => NormalizePreservesRows(sem, db, input);
    case Project(input, _) => NormalizePreservesRows(sem, db, input);
    case Join(left, right, _, _) =>
      NormalizePreservesRows(sem, db, left);
      NormalizePreservesRows(sem, db, right);
      if r.joinType.Right? {
        NormalizeRightJoin(sem, db, r);
      } else if r.joinType.RightSemi? || r.joinType.RightAnti? {
        NormalizeSemiJoin(sem, db, r);
      } else {
        NormalizeShape(left);
        NormalizeShape(right);
      }
    case Aggregate(input, _, _) => NormalizePreservesRows(sem, db, input);
    case Window(input, _) => NormalizePreservesRows(sem, db, input);
    case Union(relations) =>
      NormalizeUnion(sem, db, relations);
      assert Normalize(r).relations == NormalizeAll(relations);
  }

  function NormalizeAll(rs: seq<Relation>): seq<Relation> {
    seq(|rs|, i requires 0 <= i < |rs| => Normalize(rs[i]))
  }

  lemma {:induction false} NormalizeUnion(sem: Semantics, db: Database, rs: seq<Relation>)
    requires Ordered(sem) && forall i :: 0 <= i < |rs| ==> ArityConsistent(rs[i])
    ensures UnionRows(sem, db, None, NormalizeAll(rs)) == UnionRows(sem, db, None, rs)
    decreases rs
  {
    if rs != [] {
      NormalizePreservesRows(sem, db, rs[0]);
      NormalizeUnion(sem, db, rs[1..]);
      assert NormalizeAll(rs)[1..] == NormalizeAll(rs[1..]);
    }
  }
}
