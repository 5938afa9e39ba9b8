/**
 Unification of types. It computes least upper bounds in a lattice with `Undefined` at the bottom
 and `ExtendedJSON` at the top; its algebraic laws follow from that.
 */
module TypeUnification {
  import opened BsonScalars
  import opened SchemaTypes

  // ----- unification -----

  function Unify(a: Type, b: Type): Type
    decreases a, b
  {
    Normalize(
      if a.ExtendedJSON? || b.ExtendedJSON? then ExtendedJSON
      else if a == Scalar(Undefined) then b
      else if b == Scalar(Undefined) then a
      else if a.Nullable? then MakeNullable(Unify(a.inner, b))
      else if b.Nullable? then MakeNullable(Unify(a, b.inner))
      else if a == Scalar(Null) then MakeNullable(b)
      else if b == Scalar(Null) then MakeNullable(a)
      else match (a, b)
        case (Scalar(s), Scalar(t)) =>
          (match CommonSupertype(s, t) case Some(c) => Scalar(c) case None => ExtendedJSON)
        case (Object(x), Object(y)) => if x == y then Object(x) else ExtendedJSON
        case (Predicate(x), Predicate(y)) => if x == y then Predicate(x) else ExtendedJSON
        case (ArrayOf(x), ArrayOf(y)) => ArrayOf(Unify(x, y))
        case _ => ExtendedJSON)
  }

  // ----- the order -----

  /** The order on normal types. */
  predicate Below(a: Type, b: Type)
    decreases b
  {
    match b
    case ExtendedJSON => true
    case Nullable(y) =>
      if a.Nullable? then Below(a.inner, y)
      else if a == Scalar(Null) then y != Scalar(Undefined)
      else Below(a, y)
    case Scalar(t) =>
      || a == Scalar(Undefined)
      || (a.Scalar? && ScalarBelow(a.scalar, t))
      || (t.Null? && a == Nullable(Scalar(Undefined)))
    case ArrayOf(y) => a == Scalar(Undefined) || (a.ArrayOf? && Below(a.element, y))
    case _ => a == Scalar(Undefined) || a == b
  }

  /** The order on all types: that of their normal forms. */
  predicate Leq(a: Type, b: Type) {
    Below(Normalize(a), Normalize(b))
  }

  lemma {:induction false} BelowReflexive(a: Type)
    ensures Below(a, a)
  {
    match a
    case ArrayOf(element) => BelowReflexive(element);
    case Nullable(inner) => BelowReflexive(inner);
    case _ =>
  }

  lemma {:induction false} BottomAndTop(a: Type)
    ensures Below(Scalar(Undefined), a) && Below(a, ExtendedJSON)
  {
    if a.Nullable? {
      BottomAndTop(a.inner);
    }
  }

  lemma {:induction false} BelowTransitive(a: Type, b: Type, c: Type)
    requires Normal(a) && Normal(b) && Normal(c)
    requires Below(a, b) && Below(b, c)
    ensures Below(a, c)
    decreases c, b
  {
    BottomAndTop(c);
    if a != Scalar(Undefined) {
      match c
      case Nullable(z) =>
        if b.Nullable? {
          if a.Nullable? { BelowTransitive(a.inner, b.inner, z); }
          else if a != Scalar(Null) { BelowTransitive(a, b.inner, z); }
          else { BelowUndefined(b.inner); }
        } else if b == Scalar(Null) {
          BottomAndTop(z);
        } else {
          BelowTransitive(a, b, z);
        }
      case ArrayOf(z) => BelowTransitive(a.element, b.element, z);
      case _ =>
    }
  }

  /** Only `Undefined` is below `Undefined`. */
  lemma BelowUndefined(a: Type)
    ensures Below(a, Scalar(Undefined)) <==> a == Scalar(Undefined)
  {
  }

  lemma {:induction false} BelowAntisymmetric(a: Type, b: Type)
    requires Normal(a) && Normal(b)
    requires Below(a, b) && Below(b, a)
    ensures a == b
  {
    match (a, b)
    case (Nullable(x), Nullable(y)) => BelowAntisymmetric(x, y);
    case (ArrayOf(x), ArrayOf(y)) => BelowAntisymmetric(x, y);
    case _ =>
  }

  // ----- nullability in the order -----

  /** Making nullable is the least step to a type that admits null. */
  lemma {:induction false} MakeNullableLeast(a: Type, b: Type)
    requires Normal(a) && Normal(b)
    ensures Below(a, MakeNullable(a))
    ensures Below(a, b) && AdmitsNull(b) ==> Below(MakeNullable(a), b)
    ensures Below(MakeNullable(a), b) ==> AdmitsNull(b)
  {
    BelowReflexive(a);
  }

  lemma MakeNullableMonotone(a: Type, b: Type)
    requires Normal(a) && Normal(b) && Below(a, b)
    ensures Below(MakeNullable(a), MakeNullable(b))
  {
    MakeNullableLeast(b, b);
    BelowTransitive(a, b, MakeNullable(b));
    MakeNullableLeast(a, MakeNullable(b));
  }

  // ----- unification is the least upper bound -----

  lemma UnifyNormal(a: Type, b: Type)
    ensures Normal(Unify(a, b))
    ensures Normalize(Unify(a, b)) == Unify(a, b)
  {
    var u := Unify(a, b);
    assert exists t :: u == Normalize(t);
    var t :| u == Normalize(t);
    NormalizeNormal(t);
    NormalizeNormal(u);
  }

  /** The step of `Unify` for a nullable argument, on normal forms. */
  lemma UnifyNullableStep(inner: Type, unified: Type)
    requires Normal(unified)
    ensures Normalize(MakeNullable(unified)) == MakeNullable(unified)
    ensures Normalize(Nullable(inner)) == MakeNullable(Normalize(inner))
    ensures Normal(Normalize(inner)) && Normal(MakeNullable(unified))
  {
    NormalizeNormal(unified);
    NormalizeNormal(inner);
    NormalizeNullable(unified);
    NormalizeNullable(inner);
  }

  /** Both arguments are below their unification. */
  lemma {:induction false} UnifyUpper(a: Type, b: Type)
    ensures Leq(a, Unify(a, b)) && Leq(b, Unify(a, b))
    decreases a, b
  {
    UnifyNormal(a, b);
    NormalizeNormal(a);
    NormalizeNormal(b);
    var x, y := Normalize(a), Normalize(b);
    BelowReflexive(x);
    BelowReflexive(y);
    BottomAndTop(x);
    BottomAndTop(y);
    if a.ExtendedJSON? || b.ExtendedJSON? || a == Scalar(Undefined) || b == Scalar(Undefined) {
    } else if a.Nullable? {
      UnifyNormal(a.inner, b);
      UnifyUpper(a.inner, b);
      var u := Unify(a.inner, b);
      UnifyNullableStep(a.inner, u);
      MakeNullableMonotone(Normalize(a.inner), u);
      MakeNullableLeast(u, u);
      BelowTransitive(y, u, MakeNullable(u));
    } else if b.Nullable? {
      UnifyNormal(a, b.inner);
      UnifyUpper(a, b.inner);
      var u := Unify(a, b.inner);
      UnifyNullableStep(b.inner, u);
      MakeNullableMonotone(Normalize(b.inner), u);
      MakeNullableLeast(u, u);
      BelowTransitive(x, u, MakeNullable(u));
    } else if a == Scalar(Null) {
      NormalizeNullable(b);
      MakeNullableLeast(y, y);
    } else if b == Scalar(Null) {
      NormalizeNullable(a);
      MakeNullableLeast(x, x);
    } else if a.ArrayOf? && b.ArrayOf? {
      UnifyNormal(a.element, b.element);
      UnifyUpper(a.element, b.element);
    }
  }

  /** Null and a type without null have the nullable form of that type as least upper bound. */
  lemma NullLeast(a: Type, c: Type)
    requires Normal(a) && Normal(c) && a != Scalar(Undefined)
    requires Below(Scalar(Null), c) && Below(a, c)
    ensures Below(MakeNullable(a), c)
  {
    MakeNullableLeast(a, c);
  }

  /** The unification is below every common upper bound. */
  lemma {:induction false} UnifyLeast(a: Type, b: Type, c: Type)
    requires Leq(a, c) && Leq(b, c)
    ensures Leq(Unify(a, b), c)
    decreases a, b, Size(Normalize(c)), 1
  {
    UnifyNormal(a, b);
    NormalizeNormal(a);
    NormalizeNormal(b);
    NormalizeNormal(c);
    var x, y, z := Normalize(a), Normalize(b), Normalize(c);
    if a.ExtendedJSON? || b.ExtendedJSON? || a == Scalar(Undefined) || b == Scalar(Undefined) {
    } else if a.Nullable? {
      UnifyNormal(a.inner, b);
      var u := Unify(a.inner, b);
      UnifyNullableStep(a.inner, u);
      MakeNullableLeast(Normalize(a.inner), z);
      BelowTransitive(Normalize(a.inner), x, z);
      UnifyLeast(a.inner, b, c);
      MakeNullableLeast(u, z);
    } else if b.Nullable? {
      UnifyNormal(a, b.inner);
      var u := Unify(a, b.inner);
      UnifyNullableStep(b.inner, u);
      MakeNullableLeast(Normalize(b.inner), z);
      BelowTransitive(Normalize(b.inner), y, z);
      UnifyLeast(a, b.inner, c);
      MakeNullableLeast(u, z);
    } else if a == Scalar(Null) {
      NormalizeNullable(b);
      NullLeast(y, z);
    } else if b == Scalar(Null) {
      NormalizeNullable(a);
      NullLeast(x, z);
    } else {
      UnifyLeastCore(a, b, c);
    }
  }

  /** The case of two arguments that do not admit null. */
  lemma {:induction false} UnifyLeastCore(a: Type, b: Type, c: Type)
    requires Leq(a, c) && Leq(b, c)
    requires !AdmitsNull(a) && !AdmitsNull(b) && a != Scalar(Undefined) && b != Scalar(Undefined)
    ensures Leq(Unify(a, b), c)
    decreases a, b, Size(Normalize(c)), 0
  {
    var z := Normalize(c);
    NormalizeNormal(c);
    UnifyNormal(a, b);
    if z.Nullable? {
      NormalizeNormal(z.inner);
      UnifyLeastCore(a, b, z.inner);
    } else {
      match (a, b)
      case (ArrayOf(p), ArrayOf(q)) =>
        if z.ArrayOf? {
          NormalizeNormal(z.element);
          UnifyNormal(p, q);
          UnifyLeast(p, q, z.element);
        }
      case (Scalar(s), Scalar(t)) =>
        if z.Scalar? { CommonSupertypeLeast(s, t, z.scalar); }
      case _ =>
    }
  }

  // ----- algebraic laws -----

  /** Two types below each other have the same normal form. */
  lemma LeqAntisymmetric(a: Type, b: Type)
    requires Leq(a, b) && Leq(b, a)
    ensures Normalize(a) == Normalize(b)
  {
    NormalizeNormal(a);
    NormalizeNormal(b);
    BelowAntisymmetric(Normalize(a), Normalize(b));
  }

  lemma LeqTransitive(a: Type, b: Type, c: Type)
    requires Leq(a, b) && Leq(b, c)
    ensures Leq(a, c)
  {
    NormalizeNormal(a);
    NormalizeNormal(b);
    NormalizeNormal(c);
    BelowTransitive(Normalize(a), Normalize(b), Normalize(c));
  }

  /** The unification is determined by the order. */
  lemma UnifyUnique(a: Type, b: Type, u: Type)
    requires Leq(a, u) && Leq(b, u) && Leq(u, Unify(a, b))
    ensures Unify(a, b) == Normalize(u)
  {
    UnifyLeast(a, b, u);
    LeqAntisymmetric(Unify(a, b), u);
    UnifyNormal(a, b);
  }

  /** `c` is above the unification exactly when it is above both arguments. */
  lemma UnifyIsLub(a: Type, b: Type, c: Type)
    ensures Leq(Unify(a, b), c) <==> Leq(a, c) && Leq(b, c)
  {
    UnifyUpper(a, b);
    if Leq(Unify(a, b), c) {
      LeqTransitive(a, Unify(a, b), c);
      LeqTransitive(b, Unify(a, b), c);
    }
    if Leq(a, c) && Leq(b, c) {
      UnifyLeast(a, b, c);
    }
  }

  lemma UnifyCommutative(a: Type, b: Type)
    ensures Unify(a, b) == Unify(b, a)
  {
    UnifyUpper(a, b);
    UnifyUpper(b, a);
    UnifyLeast(b, a, Unify(a, b));
    UnifyUnique(a, b, Unify(b, a));
    UnifyNormal(b, a);
  }

  lemma UnifyAssociative(a: Type, b: Type, c: Type)
    ensures Unify(Unify(a, b), c) == Unify(a, Unify(b, c))
  {
    var l, r := Unify(Unify(a, b), c), Unify(a, Unify(b, c));
    UnifyUpper(a, Unify(b, c));
    UnifyUpper(Unify(a, b), c);
    UnifyIsLub(b, c, r);
    UnifyIsLub(a, b, r);
    UnifyIsLub(Unify(a, b), c, r);
    UnifyIsLub(a, b, l);
    UnifyIsLub(b, c, l);
    UnifyIsLub(a, Unify(b, c), l);
    LeqReflexive(l);
    LeqReflexive(r);
    LeqAntisymmetric(l, r);
    UnifyNormal(Unify(a, b), c);
    UnifyNormal(a, Unify(b, c));
  }

  lemma LeqReflexive(a: Type)
    ensures Leq(a, a)
  {
    BelowReflexive(Normalize(a));
  }

  lemma UnifyIdempotent(a: Type)
    ensures Unify(a, a) == Normalize(a)
  {
    LeqReflexive(a);
    UnifyUpper(a, a);
    UnifyUnique(a, a, a);
  }

  /** Unification cannot tell an argument from its normal form. */
  lemma UnifyNormalizedArguments(a: Type, b: Type)
    ensures Unify(Normalize(a), Normalize(b)) == Unify(a, b)
  {
    var x, y := Normalize(a), Normalize(b);
    NormalizeNormal(a);
    NormalizeNormal(b);
    NormalizeNormal(x);
    NormalizeNormal(y);
    UnifyUpper(a, b);
    UnifyUpper(x, y);
    UnifyLeast(x, y, Unify(a, b));
    UnifyUnique(a, b, Unify(x, y));
    UnifyNormal(x, y);
  }

  /** The bounds of the lattice. */
  lemma UnifyBounds(a: Type)
    ensures Unify(Scalar(Undefined), a) == Normalize(a) && Unify(a, Scalar(Undefined)) == Normalize(a)
    ensures Unify(ExtendedJSON, a) == ExtendedJSON && Unify(a, ExtendedJSON) == ExtendedJSON
  {
  }

  /** Making a type nullable is unifying it with the nullable bottom: the type of a missing field. */
  lemma MakeNullableIsUnify(a: Type)
    requires Normal(a)
    ensures MakeNullable(a) == Unify(a, Nullable(Scalar(Undefined)))
  {
    var missing := Nullable(Scalar(Undefined));
    NormalizeNormal(a);
    MakeNullableNormal(a);
    NormalizeNormal(MakeNullable(a));
    NormalizeNormal(missing);
    MakeNullableLeast(a, a);
    BottomAndTop(a);
    MakeNullableMonotone(Scalar(Undefined), a);
    UnifyUpper(a, missing);
    var u := Unify(a, missing);
    UnifyNormal(a, missing);
    MakeNullableLeast(Scalar(Undefined), u);
    MakeNullableLeast(a, u);
    UnifyUnique(a, missing, MakeNullable(a));
  }
}
