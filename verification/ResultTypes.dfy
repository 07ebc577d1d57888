/**
Whatever validation returns has the annotated type.
*/
module ResultTypes {
  import opened Wrappers
  import opened Values
  import opened Annotations
  import opened Soundness
  import opened Typing

  /** For all annotations, nested, recursive, with unions and user functions. */
  lemma {:induction false} ValidatedHasType(env: Environment, depth: nat, a: Annotation, v: Value)
    requires ProperAliases(env) && Proper(a)
    requires Validate(env, depth, a, v).Ok?
    ensures Has(env, depth, a, Validate(env, depth, a, v).value)
    decreases depth, a, 1
  {
    match a
    case TupleA(_) => TupleHasType(env, depth, a, v);
    case SequenceA(_) => SequenceHasType(env, depth, a, v);
    case SetA(_) => SetHasType(env, depth, a, v);
    case MappingA(_, _) => MappingHasType(env, depth, a, v);
    case TypedDictA(_) => TypedDictHasType(env, depth, a, v);
    case UnionA(_, _) => UnionHasType(env, depth, a, v);
    case AliasA(name) => ValidatedHasType(env, depth - 1, env.aliases[name], v);
    case VerifiedA(base, _) => ValidatedHasType(env, depth, base, v);
    case ValidatedA(base, validator) => ValidatedHasType(env, depth, base, validator(v).value);
    case _ =>
  }

  lemma {:induction false} TupleHasType(env: Environment, depth: nat, a: Annotation, v: Value)
    requires ProperAliases(env) && Proper(a) && a.TupleA?
    requires Validate(env, depth, a, v).Ok?
    ensures Has(env, depth, a, Validate(env, depth, a, v).value)
    decreases depth, a, 0
  {
    var parts := ByPosition(env, depth, a, v.items);
    CollectIsAll(parts);
    var results := Collect(parts).value;
    forall i | 0 <= i < |results| ensures Has(env, depth, a.elements[i], results[i]) {
      assert parts[i] == Ok(results[i]);
      ValidatedHasType(env, depth, a.elements[i], v.items[i]);
    }
  }

  lemma {:induction false} SequenceHasType(env: Environment, depth: nat, a: Annotation, v: Value)
    requires ProperAliases(env) && Proper(a) && a.SequenceA?
    requires Validate(env, depth, a, v).Ok?
    ensures Has(env, depth, a, Validate(env, depth, a, v).value)
    decreases depth, a, 0
  {
    var parts := ByElement(env, depth, a, v.items);
    CollectIsAll(parts);
    var results := Collect(parts).value;
    forall i | 0 <= i < |results| ensures Has(env, depth, a.element, results[i]) {
      assert parts[i] == Ok(results[i]);
      ValidatedHasType(env, depth, a.element, v.items[i]);
    }
  }

  lemma {:induction false} SetHasType(env: Environment, depth: nat, a: Annotation, v: Value)
    requires ProperAliases(env) && Proper(a) && a.SetA?
    requires Validate(env, depth, a, v).Ok?
    ensures Has(env, depth, a, Validate(env, depth, a, v).value)
    decreases depth, a, 0
  {
    var items := IterableItems(v).value;
    var parts := ByElement(env, depth, a, items);
    CollectIsAll(parts);
    var results := Collect(parts).value;
    var kept := Dedup(results);
    forall i | 0 <= i < |kept| ensures Has(env, depth, a.element, kept[i]) {
      assert kept[i] in results;
      var j :| 0 <= j < |results| && results[j] == kept[i];
      assert parts[j] == Ok(results[j]);
      ValidatedHasType(env, depth, a.element, items[j]);
    }
  }

  lemma {:induction false} MappingHasType(env: Environment, depth: nat, a: Annotation, v: Value)
    requires ProperAliases(env) && Proper(a) && a.MappingA?
    requires Validate(env, depth, a, v).Ok?
    ensures Has(env, depth, a, Validate(env, depth, a, v).value)
    decreases depth, a, 0
  {
    var parts := ByPair(env, depth, a, v.entries);
    CollectIsAll(parts);
    var pairs := Collect(parts).value;
    DictIsDistinct(pairs);
    forall j | 0 <= j < |pairs| ensures Has(env, depth, a.key, pairs[j].0) && Has(env, depth, a.element, pairs[j].1) {
      assert parts[j] == Ok(pairs[j]);
      ValidatedHasType(env, depth, a.key, v.entries[j].0);
      ValidatedHasType(env, depth, a.element, v.entries[j].1);
    }
    var kept := DictOf(pairs);
    forall i | 0 <= i < |kept| ensures Has(env, depth, a.key, kept[i].0) && Has(env, depth, a.element, kept[i].1) {
      assert ComesFrom(pairs, kept[i]);
    }
  }

  lemma {:induction false} TypedDictHasType(env: Environment, depth: nat, a: Annotation, v: Value)
    requires ProperAliases(env) && Proper(a) && a.TypedDictA?
    requires Validate(env, depth, a, v).Ok?
    ensures Has(env, depth, a, Validate(env, depth, a, v).value)
    decreases depth, a, 0
  {
    var parts := ByMember(env, depth, a, v.entries);
    CollectIsAll(parts);
    var pairs := Collect(parts).value;
    PairsAreMembers(env, depth, a, v.entries);
    var entries := Present(pairs);
    PresentIsDistinct(Names(a.members), pairs);
    DictOfDistinct(entries);
    forall i | 0 <= i < |a.members| && a.members[i].required
      ensures var found := Lookup(entries, Str(a.members[i].name));
              found.Some? && Has(env, depth, a.members[i].annotation, found.value)
    {
      assert parts[i] == Ok(pairs[i]);
      MembersFound(Names(a.members), pairs, i);
      ValidatedHasType(env, depth, a.members[i].annotation, Lookup(v.entries, Str(a.members[i].name)).value);
    }
  }

  lemma {:induction false} UnionHasType(env: Environment, depth: nat, a: Annotation, v: Value)
    requires ProperAliases(env) && Proper(a) && a.UnionA?
    requires Validate(env, depth, a, v).Ok?
    ensures Has(env, depth, a, Validate(env, depth, a, v).value)
    decreases depth, a, 0
  {
    var parts := ByAlternative(env, depth, a, v);
    FirstOkIsFirst(parts);
    var i :| 0 <= i < |parts| && parts[i] == FirstOk(parts);
    ValidatedHasType(env, depth, a.alternatives[i], v);
  }
}
