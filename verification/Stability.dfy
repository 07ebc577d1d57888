/**
Validation is idempotent: a validated value validates to itself.
*/
module Stability {
  import opened Wrappers
  import opened Values
  import opened Annotations

  predicate NullKind(a: Annotation) {
    a.NullA? || a.MissingA?
  }

  /** The alternative is the first to accept the value. */
  ghost predicate Chosen(env: Environment, depth: nat, a: Annotation, v: Value, k: nat)
    requires a.UnionA? && k < |a.alternatives|
  {
    var attempts := ByAlternative(env, depth, a, v);
    attempts[k].Ok? && forall j | 0 <= j < k :: attempts[j].Err?
  }

  /** What one alternative made of a value, no earlier alternative changes when it gets to see it. */
  ghost predicate Coherent(env: Environment, a: Annotation)
    requires a.UnionA?
  {
    forall depth: nat, v: Value, k: nat, i: nat
      {:trigger Undone(env, depth, a, v, k, i)} | i < k < |a.alternatives| && Chosen(env, depth, a, v, k) ::
      !Undone(env, depth, a, v, k, i)
  }

  /** The result of an alternative is accepted first by an earlier one, which changes it. */
  ghost predicate Undone(env: Environment, depth: nat, a: Annotation, v: Value, k: nat, i: nat)
    requires a.UnionA? && i < k < |a.alternatives| && Chosen(env, depth, a, v, k)
  {
    var r := ByAlternative(env, depth, a, v)[k];
    Chosen(env, depth, a, r.value, i) && ByAlternative(env, depth, a, r.value)[i] != r
  }

  /** No user function before validation, and only coherent unions. */
  ghost predicate Stable(env: Environment, a: Annotation)
    decreases a
  {
    match a
    case TupleA(elements) => forall i | 0 <= i < |elements| :: Stable(env, elements[i])
    case SequenceA(element) => Stable(env, element)
    case SetA(element) => Stable(env, element)
    case MappingA(key, element) => Stable(env, key) && Stable(env, element)
    case TypedDictA(members) =>
      && DistinctNames(Names(members))
      && (forall i | 0 <= i < |members| :: Stable(env, members[i].annotation))
    case UnionA(alternatives, _) =>
      Coherent(env, a) && forall i | 0 <= i < |alternatives| :: Stable(env, alternatives[i])
    case VerifiedA(base, _) => Stable(env, base)
    case ValidatedA(_, _) => false
    case _ => true
  }

  ghost predicate StableAliases(env: Environment) {
    forall name <- env.aliases :: Stable(env, env.aliases[name])
  }

  /** Validating the value gives the value itself. */
  ghost predicate Fixed(env: Environment, depth: nat, a: Annotation, v: Value) {
    Validate(env, depth, a, v) == Ok(v)
  }

  /** A list of attempts of which one gives `v` and no earlier one gives anything else. */
  lemma {:induction false} FirstOkAgrees(results: seq<Validated>, k: nat, v: Value)
    requires k < |results| && results[k] == Ok(v)
    requires forall i | 0 <= i < k :: results[i].Err? || results[i] == Ok(v)
    ensures FirstOk(results) == Ok(v)
  {
    if results[0].Err? {
      FirstOkAgrees(results[1..], k - 1, v);
    }
  }

  /** For every annotation in this class, nested and recursive, and every value: validating the validated
      value again returns it unchanged. */
  lemma {:induction false} ValidationIsIdempotent(env: Environment, depth: nat, a: Annotation, v: Value)
    requires StableAliases(env) && Stable(env, a)
    requires Validate(env, depth, a, v).Ok?
    ensures Fixed(env, depth, a, Validate(env, depth, a, v).value)
    decreases depth, a, 1
  {
    match a
    case TupleA(_) => TupleIsStable(env, depth, a, v);
    case SequenceA(_) => SequenceIsStable(env, depth, a, v);
    case SetA(_) => SetIsStable(env, depth, a, v);
    case MappingA(_, _) => MappingIsStable(env, depth, a, v);
    case TypedDictA(_) => TypedDictIsStable(env, depth, a, v);
    case UnionA(_, _) => UnionIsStable(env, depth, a, v);
    case AliasA(name) => ValidationIsIdempotent(env, depth - 1, env.aliases[name], v);
    case VerifiedA(base, _) => ValidationIsIdempotent(env, depth, base, v);
    case _ =>
  }

  lemma {:induction false} TupleIsStable(env: Environment, depth: nat, a: Annotation, v: Value)
    requires StableAliases(env) && Stable(env, a) && a.TupleA?
    requires Validate(env, depth, a, v).Ok?
    ensures Fixed(env, depth, a, Validate(env, depth, a, v).value)
    decreases depth, a, 0
  {
    var items := SequenceItems(v).value;
    var parts := ByPosition(env, depth, a, items);
    CollectIsAll(parts);
    var results := Collect(parts).value;
    forall i | 0 <= i < |items| ensures ByPosition(env, depth, a, results)[i] == Ok(results[i]) {
      assert parts[i] == Ok(results[i]);
      ValidationIsIdempotent(env, depth, a.elements[i], items[i]);
    }
    CollectOks(ByPosition(env, depth, a, results), results);
  }

  lemma {:induction false} SequenceIsStable(env: Environment, depth: nat, a: Annotation, v: Value)
    requires StableAliases(env) && Stable(env, a) && a.SequenceA?
    requires Validate(env, depth, a, v).Ok?
    ensures Fixed(env, depth, a, Validate(env, depth, a, v).value)
    decreases depth, a, 0
  {
    var items := SequenceItems(v).value;
    var parts := ByElement(env, depth, a, items);
    CollectIsAll(parts);
    var results := Collect(parts).value;
    forall i | 0 <= i < |items| ensures ByElement(env, depth, a, results)[i] == Ok(results[i]) {
      assert parts[i] == Ok(results[i]);
      ValidationIsIdempotent(env, depth, a.element, items[i]);
    }
    CollectOks(ByElement(env, depth, a, results), results);
  }

  lemma SetOfFixed(env: Environment, depth: nat, a: Annotation, items: seq<Value>)
    requires a.SetA? && DistinctItems(items)
    requires forall i | 0 <= i < |items| :: Hashable(items[i]) && Fixed(env, depth, a.element, items[i])
    ensures Fixed(env, depth, a, Set(items))
  {
    CollectOks(ByElement(env, depth, a, items), items);
    DedupOfDistinct(items);
  }

  lemma {:induction false} SetIsStable(env: Environment, depth: nat, a: Annotation, v: Value)
    requires StableAliases(env) && Stable(env, a) && a.SetA?
    requires Validate(env, depth, a, v).Ok?
    ensures Fixed(env, depth, a, Validate(env, depth, a, v).value)
    decreases depth, a, 0
  {
    var items := IterableItems(v).value;
    var parts := ByElement(env, depth, a, items);
    CollectIsAll(parts);
    var results := Collect(parts).value;
    forall j | 0 <= j < |results| ensures Fixed(env, depth, a.element, results[j]) {
      assert parts[j] == Ok(results[j]);
      ValidationIsIdempotent(env, depth, a.element, items[j]);
    }
    var kept := Dedup(results);
    forall i | 0 <= i < |kept| ensures Hashable(kept[i]) && Fixed(env, depth, a.element, kept[i]) {
      assert kept[i] in results;
    }
    DedupIsDistinct(results);
    SetOfFixed(env, depth, a, kept);
  }

  lemma {:induction false} MappingIsStable(env: Environment, depth: nat, a: Annotation, v: Value)
    requires StableAliases(env) && Stable(env, a) && a.MappingA?
    requires Validate(env, depth, a, v).Ok?
    ensures Fixed(env, depth, a, Validate(env, depth, a, v).value)
    decreases depth, a, 0
  {
    var parts := ByPair(env, depth, a, v.entries);
    CollectIsAll(parts);
    var pairs := Collect(parts).value;
    var kept := DictOf(pairs);
    DictIsDistinct(pairs);
    forall j | 0 <= j < |pairs|
      ensures Fixed(env, depth, a.key, pairs[j].0) && Fixed(env, depth, a.element, pairs[j].1)
    {
      assert parts[j] == Ok(pairs[j]);
      ValidationIsIdempotent(env, depth, a.key, v.entries[j].0);
      ValidationIsIdempotent(env, depth, a.element, v.entries[j].1);
    }
    forall i | 0 <= i < |kept|
      ensures Hashable(kept[i].0)
      ensures Fixed(env, depth, a.key, kept[i].0) && Fixed(env, depth, a.element, kept[i].1)
    {
      assert ComesFrom(pairs, kept[i]);
      var j :| 0 <= j < |pairs| && kept[i].0 == pairs[j].0;
      assert Fixed(env, depth, a.key, pairs[j].0);
      var l :| 0 <= l < |pairs| && kept[i].1 == pairs[l].1;
      assert Fixed(env, depth, a.element, pairs[l].1);
    }
    DictOfFixed(env, depth, a, kept);
  }

  lemma DictOfFixed(env: Environment, depth: nat, a: Annotation, entries: seq<(Value, Value)>)
    requires a.MappingA? && DistinctItems(Keys(entries))
    requires forall i | 0 <= i < |entries| ::
               && Hashable(entries[i].0)
               && Fixed(env, depth, a.key, entries[i].0) && Fixed(env, depth, a.element, entries[i].1)
    ensures Fixed(env, depth, a, Dict(entries))
  {
    CollectOks(ByPair(env, depth, a, entries), entries);
    DictOfDistinct(entries);
  }

  lemma {:induction false} TypedDictIsStable(env: Environment, depth: nat, a: Annotation, v: Value)
    requires StableAliases(env) && Stable(env, a) && a.TypedDictA?
    requires Validate(env, depth, a, v).Ok?
    ensures Fixed(env, depth, a, Validate(env, depth, a, v).value)
    decreases depth, a, 0
  {
    var parts := ByMember(env, depth, a, v.entries);
    CollectIsAll(parts);
    var pairs := Collect(parts).value;
    PairsAreMembers(env, depth, a, v.entries);
    var entries := Present(pairs);
    PresentIsDistinct(Names(a.members), pairs);
    DictOfDistinct(entries);
    forall i | 0 <= i < |a.members| ensures ByMember(env, depth, a, entries)[i] == Ok(pairs[i]) {
      assert parts[i] == Ok(pairs[i]);
      MembersFound(Names(a.members), pairs, i);
      if pairs[i].Some? {
        ValidationIsIdempotent(env, depth, a.members[i].annotation, Lookup(v.entries, Str(a.members[i].name)).value);
      }
    }
    CollectOks(ByMember(env, depth, a, entries), pairs);
  }

  lemma {:induction false} FirstIsChosen(env: Environment, depth: nat, a: Annotation, v: Value) returns (k: nat)
    requires a.UnionA? && Validate(env, depth, a, v).Ok?
    ensures k < |a.alternatives| && Chosen(env, depth, a, v, k)
    ensures ByAlternative(env, depth, a, v)[k] == Validate(env, depth, a, v)
  {
    var attempts := ByAlternative(env, depth, a, v);
    FirstOkIsFirst(attempts);
    k :| 0 <= k < |attempts| && attempts[k] == FirstOk(attempts) && forall j | 0 <= j < k :: attempts[j].Err?;
  }

  lemma ChosenIsResult(env: Environment, depth: nat, a: Annotation, v: Value, k: nat)
    requires a.UnionA? && k < |a.alternatives| && Chosen(env, depth, a, v, k)
    ensures Validate(env, depth, a, v) == ByAlternative(env, depth, a, v)[k]
  {
    FirstOkAgrees(ByAlternative(env, depth, a, v), k, ByAlternative(env, depth, a, v)[k].value);
  }

  /** An alternative that keeps a value leaves it to the union, unless an earlier one changes it. */
  lemma KeptByUnion(env: Environment, depth: nat, a: Annotation, v: Value, k: nat)
    requires a.UnionA? && k < |a.alternatives| && Chosen(env, depth, a, v, k) && Coherent(env, a)
    requires Fixed(env, depth, a.alternatives[k], ByAlternative(env, depth, a, v)[k].value)
    ensures Fixed(env, depth, a, ByAlternative(env, depth, a, v)[k].value)
  {
    var r := ByAlternative(env, depth, a, v)[k].value;
    var again := ByAlternative(env, depth, a, r);
    assert again[k] == Ok(r);
    FirstOkIsFirst(again);
    var i := FirstIsChosen(env, depth, a, r);
    if i < k {
      assert !Undone(env, depth, a, v, k, i);
    }
  }

  lemma {:induction false} UnionIsStable(env: Environment, depth: nat, a: Annotation, v: Value)
    requires StableAliases(env) && Stable(env, a) && a.UnionA?
    requires Validate(env, depth, a, v).Ok?
    ensures Fixed(env, depth, a, Validate(env, depth, a, v).value)
    decreases depth, a, 0
  {
    var k := FirstIsChosen(env, depth, a, v);
    ValidationIsIdempotent(env, depth, a.alternatives[k], v);
    KeptByUnion(env, depth, a, v, k);
  }

  /** Validating a validated value returns it unchanged, at any depth and for any value. */
  ghost predicate Idempotent(env: Environment, a: Annotation) {
    forall depth: nat, v: Value | Validate(env, depth, a, v).Ok? ::
      Fixed(env, depth, a, Validate(env, depth, a, v).value)
  }

  /** A union of such alternatives is idempotent if and only if it is coherent. */
  lemma UnionIsIdempotentIff(env: Environment, a: Annotation)
    requires StableAliases(env) && a.UnionA?
    requires forall i | 0 <= i < |a.alternatives| :: Stable(env, a.alternatives[i])
    ensures Idempotent(env, a) <==> Coherent(env, a)
  {
    if Coherent(env, a) {
      forall depth: nat, v: Value | Validate(env, depth, a, v).Ok?
        ensures Fixed(env, depth, a, Validate(env, depth, a, v).value)
      {
        UnionIsStable(env, depth, a, v);
      }
    }
    if Idempotent(env, a) {
      forall depth: nat, v: Value, k: nat, i: nat | i < k < |a.alternatives| && Chosen(env, depth, a, v, k)
        ensures !Undone(env, depth, a, v, k, i)
      {
        ChosenIsResult(env, depth, a, v, k);
        var r := ByAlternative(env, depth, a, v)[k].value;
        assert Fixed(env, depth, a, r);
        if Chosen(env, depth, a, r, i) {
          ChosenIsResult(env, depth, a, r, i);
        }
      }
    }
  }

  /** A union that is not coherent: under `bool | int` the value 2.0 becomes 2, and 2 becomes true. */
  lemma OtherUnionsCoerceAgain(env: Environment)
    ensures var a := UnionA([BoolA, IntA], (v: Value) => true);
            && Validate(env, 0, a, Float(2.0)) == Ok(Int(2))
            && Validate(env, 0, a, Int(2)) == Ok(Bool(true))
  {
    var a := UnionA([BoolA, IntA], (v: Value) => true);
    assert ValidateInt(Float(2.0)) == Ok(Int(2));
    var first := ByAlternative(env, 0, a, Float(2.0));
    assert first[0] == Err(WrongType) && first[1] == Ok(Int(2));
    FirstOkAgrees(first, 1, Int(2));
    var second := ByAlternative(env, 0, a, Int(2));
    assert second[0] == Ok(Bool(true));
    FirstOkAgrees(second, 0, Bool(true));
  }
}
