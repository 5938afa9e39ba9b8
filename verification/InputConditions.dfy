/**
 Which expressions without operators close a cycle, told from the expression: those in which a nested
 document's type name is parsed to the name reserved for an enclosing document.
 */
module InputConditions {
  import opened Options
  import opened Decimals
  import opened TypeConstraints
  import opened ConstraintGraphs
  import opened TypeNames
  import opened PipelineTypeContexts
  import opened ExpressionTyping
  import opened ExpressionRuns
  import opened RunOutcomes

  // ----- the names an expression takes -----

  /** The names that are taken once types are generated for the expression. */
  function TakenAfter(e: Expression, desired: string, taken: set<string>): set<string>
    decreases e, 1, 0
  {
    if e.Document? then FieldsTaken(e, |e.fields|, desired, taken) + {UniqueOf(taken, desired)} else taken
  }

  function FieldsTaken(e: Expression, i: nat, desired: string, taken: set<string>): set<string>
    requires e.Document? && i <= |e.fields|
    decreases e, 0, i
  {
    if i == 0 then taken
    else TakenAfter(e.fields[i - 1].value, desired + "_" + e.fields[i - 1].name, FieldsTaken(e, i - 1, desired, taken))
  }

  /** Some document's type name is parsed to a name that is reserved for a document around it. */
  predicate Intrudes(e: Expression, desired: string, taken: set<string>, reserved: set<string>)
    decreases e, 1, 0
  {
    e.Document? &&
      (Root(desired) in reserved
       || FieldsIntrude(e, |e.fields|, desired, taken, reserved + {UniqueOf(taken, desired)}))
  }

  predicate FieldsIntrude(e: Expression, i: nat, desired: string, taken: set<string>, reserved: set<string>)
    requires e.Document? && i <= |e.fields|
    decreases e, 0, i
  {
    i > 0 &&
      var field := e.fields[i - 1];
      || FieldsIntrude(e, i - 1, desired, taken, reserved)
      || Intrudes(field.value, desired + "_" + field.name, FieldsTaken(e, i - 1, desired, taken), reserved)
  }

  // ----- reserved names -----

  /** The name was chosen at a type name that the other one extends. */
  ghost predicate ReservedAt(base: string, name: string, desired: string) {
    base + "_" <= desired && (name == Root(base) || exists j :: name == Numbered(base, j))
  }

  ghost predicate Enclosing(reserved: set<string>, desired: string) {
    forall name :: name in reserved ==> exists base :: ReservedAt(base, name, desired)
  }

  /** A nested type takes a reserved name only as the root of its type name, not by its number. */
  lemma ReservedClash(taken: set<string>, base: string, reserved: string, desired: string)
    requires ReservedAt(base, reserved, desired) && reserved !in taken
    ensures UniqueOf(taken, desired) == reserved <==> Root(desired) == reserved
  {
    var name := UniqueOf(taken, desired);
    if name == reserved && name != Root(desired) {
      var k :| name == Numbered(desired, k);
      assert |Root(base)| <= |base| < |name|;
      NumbersDiffer(base, desired, k);
    }
  }

  /** A number after a longer type name is no number after the shorter one. */
  lemma NumbersDiffer(base: string, desired: string, k: nat)
    requires base + "_" <= desired
    ensures forall j :: Numbered(desired, k) != Numbered(base, j)
  {
    var prefix := base + "_";
    var path := desired[|prefix|..];
    var tail := path + "_" + ToDecimal(k);
    assert desired == prefix + path;
    assert Numbered(desired, k) == prefix + tail by {
      assert Numbered(desired, k) == desired + ("_" + ToDecimal(k));
      assert tail == path + ("_" + ToDecimal(k));
    }
    assert tail[|path|] == '_' && !AllDigits(tail);
    forall j ensures Numbered(desired, k) != Numbered(base, j) {
      NumberedTail(base, tail, j);
    }
  }

  lemma EnclosingNested(reserved: set<string>, taken: set<string>, desired: string, field: string)
    requires Enclosing(reserved, desired)
    ensures Enclosing(reserved + {UniqueOf(taken, desired)}, desired + "_" + field)
  {
    var name, nested := UniqueOf(taken, desired), desired + "_" + field;
    forall n | n in reserved + {name} ensures exists base :: ReservedAt(base, n, nested) {
      if n in reserved {
        var base :| ReservedAt(base, n, desired);
        assert base + "_" <= desired <= nested;
        assert ReservedAt(base, n, nested);
      } else {
        assert ReservedAt(desired, n, nested);
      }
    }
  }

  // ----- what a run makes of it -----

  /**
   What becomes of the names of object types: with an intrusion there are fewer than documents, or one is
   reserved; without, there is one for each document, and they are the names foreseen.
   */
  predicate Outcomes(intrudes: bool, before: set<string>, after: set<string>, documents: nat,
                     configured: set<string>, foreseen: set<string>, reserved: set<string>) {
    if intrudes then |after| < |before| + documents || !(reserved !! after)
    else |after| == |before| + documents && configured + after == foreseen && reserved !! after
  }

  lemma {:induction false} RunIntrudes(s: ContextState, configured: set<string>, desired: string,
                                       hint: Option<TypeConstraint>, e: Expression, s': ContextState,
                                       t: TypeConstraint, reserved: set<string>)
    requires WellFormed(s) && Runs(s, configured, desired, hint, e, s', t)
    requires Enclosing(reserved, desired) && reserved !! configured + s.graph.objects.Keys
    ensures var taken := configured + s.graph.objects.Keys;
      Outcomes(Intrudes(e, desired, taken, reserved), s.graph.objects.Keys, s'.graph.objects.Keys, Documents(e),
               configured, TakenAfter(e, desired, taken), reserved)
    decreases e, 1, 0
  {
    match e
    case Leaf(_) =>
    case Text(NativeQueryVariable(name, annotation)) =>
      ParameterGrows(s, name, Members(ParameterConstraints(hint, annotation)));
    case Document(fields) =>
      var last, types := DocumentRun(s, configured, desired, hint, e, s', t);
      FieldsGrow(s, configured, desired, e, |fields|, last, types);
      FieldsRunIntrude(s, configured, desired, e, |fields|, last, types, reserved);
      DocumentIntrudes(configured, s.graph.objects.Keys, last.graph.objects.Keys, desired, e, t.name, reserved);
  }

  lemma DocumentRun(s: ContextState, configured: set<string>, desired: string, hint: Option<TypeConstraint>,
                    e: Expression, s': ContextState, t: TypeConstraint)
      returns (last: ContextState, types: map<string, TypeConstraint>)
    requires e.Document? && Runs(s, configured, desired, hint, e, s', t)
    ensures t.Object? && t.name == UniqueOf(configured + s.graph.objects.Keys, desired)
    ensures FieldsRun(s, configured, desired, e, |e.fields|, last, types)
    ensures s'.graph.objects.Keys == last.graph.objects.Keys + {t.name}
  {
    var taken := configured + s.graph.objects.Keys;
    last, types :| FieldsRun(s, configured, desired, e, |e.fields|, last, types)
      && s' == last.(graph := WithObject(last.graph, t.name, types));
    UniqueNameDetermined(taken, desired, t.name, UniqueOf(taken, desired));
  }

  lemma DocumentIntrudes(configured: set<string>, before: set<string>, last: set<string>, desired: string,
                         e: Expression, name: string, reserved: set<string>)
    requires e.Document? && name == UniqueOf(configured + before, desired)
    requires |last| <= |before| + FieldDocuments(e, |e.fields|)
    requires Enclosing(reserved, desired) && reserved !! configured + before
    requires var taken, n := configured + before, |e.fields|;
      Outcomes(FieldsIntrude(e, n, desired, taken, reserved + {name}), before, last, FieldDocuments(e, n),
               configured, FieldsTaken(e, n, desired, taken), reserved + {name})
    ensures var taken := configured + before;
      Outcomes(Intrudes(e, desired, taken, reserved), before, last + {name}, Documents(e),
               configured, TakenAfter(e, desired, taken), reserved)
  {
    if Root(desired) in reserved {
      assert name == Root(desired);
    } else if name in reserved {
      var base :| ReservedAt(base, name, desired);
      ReservedClash(configured + before, base, name, desired);
    }
    assert configured + (last + {name}) == (configured + last) + {name};
  }

  lemma {:induction false} FieldsRunIntrude(s: ContextState, configured: set<string>, desired: string, e: Expression,
                                            i: nat, s': ContextState, types: map<string, TypeConstraint>,
                                            reserved: set<string>)
    requires e.Document? && i <= |e.fields|
    requires WellFormed(s) && FieldsRun(s, configured, desired, e, i, s', types)
    requires Enclosing(reserved, desired) && reserved !! configured + s.graph.objects.Keys
    ensures var taken := configured + s.graph.objects.Keys;
      var inner := reserved + {UniqueOf(taken, desired)};
      Outcomes(FieldsIntrude(e, i, desired, taken, inner), s.graph.objects.Keys, s'.graph.objects.Keys,
               FieldDocuments(e, i), configured, FieldsTaken(e, i, desired, taken), inner)
    decreases e, 0, i
  {
    var taken := configured + s.graph.objects.Keys;
    var inner := reserved + {UniqueOf(taken, desired)};
    if i > 0 {
      var before, earlier :| FieldStep(configured, desired, e, i, before, earlier, s', types)
        && FieldsRun(s, configured, desired, e, i - 1, before, earlier);
      FieldsRunIntrude(s, configured, desired, e, i - 1, before, earlier, reserved);
      FieldsGrow(s, configured, desired, e, i - 1, before, earlier);
      EnclosingNested(reserved, taken, desired, e.fields[i - 1].name);
      FieldIntrudes(s, before, configured, desired, e, i, s', earlier, types, inner);
    }
  }

  lemma {:induction false} FieldIntrudes(s: ContextState, before: ContextState, configured: set<string>,
                                         desired: string, e: Expression, i: nat, s': ContextState,
                                         earlier: map<string, TypeConstraint>, types: map<string, TypeConstraint>,
                                         inner: set<string>)
    requires e.Document? && 0 < i <= |e.fields| && WellFormed(before)
    requires FieldStep(configured, desired, e, i, before, earlier, s', types)
    requires |before.graph.objects| <= |s.graph.objects| + FieldDocuments(e, i - 1)
    requires Enclosing(inner, desired + "_" + e.fields[i - 1].name)
    requires var taken := configured + s.graph.objects.Keys;
      Outcomes(FieldsIntrude(e, i - 1, desired, taken, inner), s.graph.objects.Keys, before.graph.objects.Keys,
               FieldDocuments(e, i - 1), configured, FieldsTaken(e, i - 1, desired, taken), inner)
    requires inner !! configured
    ensures var taken := configured + s.graph.objects.Keys;
      Outcomes(FieldsIntrude(e, i, desired, taken, inner), s.graph.objects.Keys, s'.graph.objects.Keys,
               FieldDocuments(e, i), configured, FieldsTaken(e, i, desired, taken), inner)
    decreases e, 0, i, 0
  {
    var taken, field := configured + s.graph.objects.Keys, e.fields[i - 1];
    var nested := desired + "_" + field.name;
    var before', after := before.graph.objects.Keys, s'.graph.objects.Keys;
    RunGrows(before, configured, nested, None, field.value, s', types[field.name]);
    if !FieldsIntrude(e, i - 1, desired, taken, inner) {
      RunIntrudes(before, configured, nested, None, field.value, s', types[field.name], inner);
    }
    OneMoreField(s.graph.objects.Keys, before', after, FieldDocuments(e, i - 1), Documents(field.value), configured,
                 FieldsTaken(e, i - 1, desired, taken), FieldsTaken(e, i, desired, taken), inner,
                 FieldsIntrude(e, i - 1, desired, taken, inner),
                 Intrudes(field.value, nested, FieldsTaken(e, i - 1, desired, taken), inner));
  }

  lemma OneMoreField(keys: set<string>, before: set<string>, after: set<string>, n: nat, m: nat,
                     configured: set<string>, foreseen: set<string>, foreseen': set<string>, reserved: set<string>,
                     earlier: bool, now: bool)
    requires before <= after && |before| <= |keys| + n && |after| <= |before| + m
    requires Outcomes(earlier, keys, before, n, configured, foreseen, reserved)
    requires !earlier ==> Outcomes(now, before, after, m, configured, foreseen', reserved)
    ensures Outcomes(earlier || now, keys, after, n + m, configured, foreseen', reserved)
  {
  }

  /**
   An expression without operators is inferred in a consistent state: in the end the graph is acyclic
   exactly if nowhere in the expression a nested document's type name is parsed to a name reserved for
   an enclosing document.
   */
  lemma PlainInputExact(s: ContextState, configured: set<string>, rank: Rank, desired: string,
                        e: Expression, s': ContextState, t: TypeConstraint)
    requires Consistent(s, configured, rank) && Ordinary(e, configured)
    requires Runs(s, configured, desired, None, e, s', t)
    ensures Acyclic(s'.graph) <==> !Intrudes(e, desired, configured + s.graph.objects.Keys, {})
  {
    PlainRunExact(s, configured, rank, desired, e, s', t);
    RunGrows(s, configured, desired, None, e, s', t);
    RunIntrudes(s, configured, desired, None, e, s', t, {});
  }
}
