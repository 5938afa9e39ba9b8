/** Keyed merge of two insertion-ordered maps. */
module Aligning {
  import opened Options

  /** An insertion-ordered map: entries with distinct keys. */
  type IndexMap<K, V> = seq<(K, V)>

  predicate Distinct<K(==), V>(m: IndexMap<K, V>) {
    forall i, j :: 0 <= i < j < |m| ==> m[i].0 != m[j].0
  }

  /** The map that holds the last entry of every key. */
  function ToMap<K(==), V>(m: IndexMap<K, V>): map<K, V> {
    if m == [] then map[] else ToMap(m[..|m| - 1])[m[|m| - 1].0 := m[|m| - 1].1]
  }

  function Position<K(==), V>(m: IndexMap<K, V>, k: K): (p: Option<nat>)
    ensures p.Some? ==> p.value < |m| && m[p.value].0 == k
    ensures p.None? ==> forall i :: 0 <= i < |m| ==> m[i].0 != k
  {
    if m == [] then None
    else if m[|m| - 1].0 == k then Some(|m| - 1)
    else Position(m[..|m| - 1], k)
  }

  /** Replaces the value of a present key, or appends a new entry. */
  function Insert<K(==), V>(m: IndexMap<K, V>, k: K, v: V): IndexMap<K, V> {
    match Position(m, k)
    case Some(p) => m[p := (k, v)]
    case None => m + [(k, v)]
  }

  /** Removes an entry by moving the last entry into its place. */
  function SwapRemove<K(==), V>(m: IndexMap<K, V>, k: K): (result: (Option<V>, IndexMap<K, V>))
    ensures Distinct(m) ==> Distinct(result.1)
    ensures match result.0
            case None => result.1 == m && forall i :: 0 <= i < |m| ==> m[i].0 != k
            case Some(v) => (k, v) in m && |result.1| == |m| - 1
  {
    match Position(m, k)
    case None => (None, m)
    case Some(p) =>
      var last := |m| - 1;
      (Some(m[p].1), if p == last then m[..last] else m[..last][p := m[last]])
  }

  /** Entries and the map they stand for. */
  lemma {:induction false} ToMapEntries<K, V>(m: IndexMap<K, V>)
    requires Distinct(m)
    ensures forall i :: 0 <= i < |m| ==> m[i].0 in ToMap(m) && ToMap(m)[m[i].0] == m[i].1
  {
    if m != [] {
      ToMapEntries(m[..|m| - 1]);
    }
  }

  lemma {:induction false} ToMapKey<K, V>(m: IndexMap<K, V>, k: K) returns (i: nat)
    requires k in ToMap(m)
    ensures i < |m| && m[i].0 == k
  {
    if m[|m| - 1].0 == k {
      i := |m| - 1;
    } else {
      i := ToMapKey(m[..|m| - 1], k);
    }
  }

  lemma PositionIsLookup<K, V>(m: IndexMap<K, V>, k: K)
    requires Distinct(m)
    ensures Position(m, k).Some? <==> k in ToMap(m)
    ensures k in ToMap(m) ==> m[Position(m, k).value].1 == ToMap(m)[k]
  {
    ToMapEntries(m);
    if k in ToMap(m) {
      var i := ToMapKey(m, k);
    }
  }

  /** Distinct entries with the same keys and values stand for the same map. */
  lemma EntriesDetermineMap<K, V>(m: IndexMap<K, V>, target: map<K, V>)
    requires Distinct(m)
    requires forall i :: 0 <= i < |m| ==> m[i].0 in target && target[m[i].0] == m[i].1
    requires forall k :: k in target ==> Position(m, k).Some?
    ensures ToMap(m) == target
  {
    ToMapEntries(m);
    forall k | k in target ensures k in ToMap(m) {
      PositionIsLookup(m, k);
    }
    forall k | k in ToMap(m) ensures k in target {
      var i := ToMapKey(m, k);
    }
    assert ToMap(m).Keys == target.Keys;
    forall k | k in target ensures ToMap(m)[k] == target[k] {
      PositionIsLookup(m, k);
    }
  }

  lemma InsertIsUpdate<K, V>(m: IndexMap<K, V>, k: K, v: V)
    requires Distinct(m)
    ensures Distinct(Insert(m, k, v)) && ToMap(Insert(m, k, v)) == ToMap(m)[k := v]
    ensures k !in ToMap(m) ==> Insert(m, k, v) == m + [(k, v)]
  {
    PositionIsLookup(m, k);
    var updated := Insert(m, k, v);
    if k in ToMap(m) {
      ToMapEntries(m);
      forall q | q in ToMap(m)[k := v] ensures Position(updated, q).Some? {
        var i := ToMapKey(m, q);
        assert updated[i].0 == q;
      }
      EntriesDetermineMap(updated, ToMap(m)[k := v]);
    } else {
      assert updated[..|m|] == m;
    }
  }

  lemma SwapRemoveIsRemoval<K, V>(m: IndexMap<K, V>, k: K)
    requires Distinct(m)
    ensures Distinct(SwapRemove(m, k).1) && ToMap(SwapRemove(m, k).1) == ToMap(m) - {k}
    ensures SwapRemove(m, k).0 == if k in ToMap(m) then Some(ToMap(m)[k]) else None
  {
    PositionIsLookup(m, k);
    if k in ToMap(m) {
      var p, last := Position(m, k).value, |m| - 1;
      var rest := SwapRemove(m, k).1;
      ToMapEntries(m);
      forall q | q in ToMap(m) - {k} ensures Position(rest, q).Some? {
        var i := ToMapKey(m, q);
        if i == last { assert rest[p].0 == q; } else { assert rest[i].0 == q; }
      }
      EntriesDetermineMap(rest, ToMap(m) - {k});
    }
  }

  /** What a merge means: one-sided entries are mapped, common ones combined. */
  function Merged<K, T, U, V>(ts: map<K, T>, us: map<K, U>, ft: T -> V, fu: U -> V, ftu: (T, U) -> V): map<K, V> {
    map k | k in ts.Keys + us.Keys ::
      if k in ts && k in us then ftu(ts[k], us[k])
      else if k in ts then ft(ts[k])
      else fu(us[k])
  }

  /** The merge restricted to the keys of the first map. */
  function MergedFirst<K, T, U, V>(ts: map<K, T>, us: map<K, U>, ft: T -> V, ftu: (T, U) -> V): map<K, V> {
    map k | k in ts :: if k in us then ftu(ts[k], us[k]) else ft(ts[k])
  }

  function MapValues<K, U, V>(us: map<K, U>, fu: U -> V): map<K, V> {
    map k | k in us :: fu(us[k])
  }

  /** After `i` entries of the first map: their keys are gone from the second, their values merged. */
  ghost predicate FirstDone<K, T, U, V>(ts: IndexMap<K, T>, i: nat, us0: map<K, U>, us: IndexMap<K, U>,
                                        ft: T -> V, ftu: (T, U) -> V, result: IndexMap<K, V>)
    requires i <= |ts|
  {
    && Distinct(us) && Distinct(result)
    && ToMap(us) == us0 - ToMap(ts[..i]).Keys
    && ToMap(result) == MergedFirst(ToMap(ts[..i]), us0, ft, ftu)
    && |result| == i && forall j :: 0 <= j < i ==> result[j].0 == ts[j].0
  }

  lemma FirstStep<K, T, U, V>(ts: IndexMap<K, T>, i: nat, us0: map<K, U>, us: IndexMap<K, U>,
                              ft: T -> V, ftu: (T, U) -> V, result: IndexMap<K, V>, v: V)
    requires Distinct(ts) && i < |ts| && FirstDone(ts, i, us0, us, ft, ftu, result)
    requires v == match SwapRemove(us, ts[i].0).0 case None => ft(ts[i].1) case Some(u) => ftu(ts[i].1, u)
    ensures FirstDone(ts, i + 1, us0, SwapRemove(us, ts[i].0).1, ft, ftu, Insert(result, ts[i].0, v))
  {
    var (k, t) := ts[i];
    NextEntry(ts, i);
    SwapRemoveIsRemoval(us, k);
    InsertIsUpdate(result, k, v);
    assert ToMap(ts[..i + 1]).Keys == ToMap(ts[..i]).Keys + {k};
    assert MergedFirst(ToMap(ts[..i + 1]), us0, ft, ftu) == MergedFirst(ToMap(ts[..i]), us0, ft, ftu)[k := v];
  }

  /** After `i` of the remaining entries of the second map: they are appended. */
  ghost predicate SecondDone<K, U, V>(first: IndexMap<K, V>, us: IndexMap<K, U>, i: nat, fu: U -> V,
                                      result: IndexMap<K, V>)
    requires i <= |us|
  {
    && Distinct(result)
    && ToMap(result) == ToMap(first) + MapValues(ToMap(us[..i]), fu)
    && |result| == |first| + i && forall j :: 0 <= j < |first| ==> result[j].0 == first[j].0
  }

  lemma SecondStep<K, U, V>(first: IndexMap<K, V>, us: IndexMap<K, U>, i: nat, fu: U -> V, result: IndexMap<K, V>)
    requires Distinct(us) && i < |us| && SecondDone(first, us, i, fu, result)
    requires ToMap(us).Keys !! ToMap(first).Keys
    ensures SecondDone(first, us, i + 1, fu, Insert(result, us[i].0, fu(us[i].1)))
  {
    var (k, u) := us[i];
    NextEntry(us, i);
    ToMapEntries(us);
    assert k in ToMap(us);
    InsertIsUpdate(result, k, fu(u));
    assert MapValues(ToMap(us[..i + 1]), fu) == MapValues(ToMap(us[..i]), fu)[k := fu(u)];
  }

  lemma AlignDone<K, T, U, V>(ts: IndexMap<K, T>, us0: map<K, U>, us: IndexMap<K, U>, ft: T -> V, fu: U -> V,
                              ftu: (T, U) -> V, first: IndexMap<K, V>, result: IndexMap<K, V>)
    requires FirstDone(ts, |ts|, us0, us, ft, ftu, first) && SecondDone(first, us, |us|, fu, result)
    ensures ToMap(result) == Merged(ToMap(ts), us0, ft, fu, ftu)
    ensures |ts| <= |result| && forall i :: 0 <= i < |ts| ==> result[i].0 == ts[i].0
  {
    assert ts[..|ts|] == ts && us[..|us|] == us;
  }

  /** Merges by mutation: common keys are removed from the second map as the first is traversed. */
  method Align<K(==), T, U, V>(ts: IndexMap<K, T>, us0: IndexMap<K, U>, ft: T -> V, fu: U -> V, ftu: (T, U) -> V)
      returns (result: IndexMap<K, V>)
    requires Distinct(ts) && Distinct(us0)
    ensures Distinct(result)
    ensures ToMap(result) == Merged(ToMap(ts), ToMap(us0), ft, fu, ftu)
    ensures |ts| <= |result| && forall i :: 0 <= i < |ts| ==> result[i].0 == ts[i].0
  {
    var us := us0;
    result := [];
    for i := 0 to |ts|
      invariant FirstDone(ts, i, ToMap(us0), us, ft, ftu, result)
    {
      var (k, t) := ts[i];
      var (found, rest) := SwapRemove(us, k);
      var v := match found case None => ft(t) case Some(u) => ftu(t, u);
      FirstStep(ts, i, ToMap(us0), us, ft, ftu, result, v);
      us := rest;
      result := Insert(result, k, v);
    }
    ghost var first := result;
    assert ToMap(us).Keys !! ToMap(first).Keys by { assert ts[..|ts|] == ts; }
    assert SecondDone(first, us, 0, fu, result);
    for i := 0 to |us|
      invariant SecondDone(first, us, i, fu, result)
    {
      SecondStep(first, us, i, fu, result);
      result := Insert(result, us[i].0, fu(us[i].1));
    }
    AlignDone(ts, ToMap(us0), us, ft, fu, ftu, first, result);
  }

  /** One more entry of a map, in insertion order. */
  lemma NextEntry<K, V>(m: IndexMap<K, V>, i: nat)
    requires Distinct(m) && i < |m|
    ensures ToMap(m[..i + 1]) == ToMap(m[..i])[m[i].0 := m[i].1] && m[i].0 !in ToMap(m[..i])
  {
    assert m[..i + 1][..i] == m[..i];
    NewKey(m, i);
  }

  lemma NewKey<K, V>(m: IndexMap<K, V>, i: nat)
    requires Distinct(m) && i < |m|
    ensures m[i].0 !in ToMap(m[..i])
  {
    if m[i].0 in ToMap(m[..i]) {
      var j := ToMapKey(m[..i], m[i].0);
    }
  }
}
