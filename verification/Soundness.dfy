/**
Validation is sound: what `validate` returns is never answered with "no" by `check`.
*/
module Soundness {
  import opened Wrappers
  import opened Values
  import opened Annotations

  /** A typed dictionary is declared as a mapping from names, so it has no name twice. */
  ghost predicate Proper(a: Annotation)
    decreases a
  {
    match a
    case TupleA(elements) => forall i | 0 <= i < |elements| :: Proper(elements[i])
    case SequenceA(element) => Proper(element)
    case SetA(element) => Proper(element)
    case MappingA(key, element) => Proper(key) && Proper(element)
    case TypedDictA(members) =>
      && DistinctNames(Names(members))
      && (forall i | 0 <= i < |members| :: Proper(members[i].annotation))
    case UnionA(alternatives, _) => forall i | 0 <= i < |alternatives| :: Proper(alternatives[i])
    case VerifiedA(base, _) => Proper(base)
    case ValidatedA(base, _) => Proper(base)
    case _ => true
  }

  ghost predicate ProperAliases(env: Environment) {
    forall name <- env.aliases :: Proper(env.aliases[name])
  }

  /** `check` does not say no, whatever recursion depth it has. */
  ghost predicate NeverNo(env: Environment, a: Annotation, v: Value) {
    forall depth: nat :: !Check(env, depth, a, v).No?
  }

  /** If validation succeeds, checking its result never answers no: for every annotation, nested,
      recursive through aliases, with unions and user functions, for every value and every depth. */
  lemma {:induction false} ValidatedIsChecked(env: Environment, depth: nat, a: Annotation, v: Value)
    requires ProperAliases(env) && Proper(a)
    requires Validate(env, depth, a, v).Ok?
    ensures NeverNo(env, a, Validate(env, depth, a, v).value)
    decreases depth, a, 1
  {
    match a
    case TupleA(_) => TupleIsChecked(env, depth, a, v);
    case SequenceA(_) => SequenceIsChecked(env, depth, a, v);
    case SetA(_) => SetIsChecked(env, depth, a, v);
    case MappingA(_, _) => MappingIsChecked(env, depth, a, v);
    case TypedDictA(_) => TypedDictIsChecked(env, depth, a, v);
    case UnionA(_, _) => UnionIsChecked(env, depth, a, v);
    case AliasA(name) =>
      ValidatedIsChecked(env, depth - 1, env.aliases[name], v);
      forall d: nat ensures !Check(env, d, a, Validate(env, depth, a, v).value).No? {
        assert d > 0 ==> !Check(env, d - 1, env.aliases[name], Validate(env, depth, a, v).value).No?;
      }
    case VerifiedA(base, _) =>
      ValidatedIsChecked(env, depth, base, v);
      var r := Validate(env, depth, a, v).value;
      assert forall d: nat :: Check(env, d, a, r) == Check(env, d, base, r);
    case ValidatedA(base, validator) =>
      ValidatedIsChecked(env, depth, base, validator(v).value);
      var r := Validate(env, depth, a, v).value;
      assert forall d: nat :: Check(env, d, a, r) == Check(env, d, base, r);
    case _ =>
  }

  lemma {:induction false} TupleIsChecked(env: Environment, depth: nat, a: Annotation, v: Value)
    requires ProperAliases(env) && Proper(a) && a.TupleA?
    requires Validate(env, depth, a, v).Ok?
    ensures NeverNo(env, a, Validate(env, depth, a, v).value)
    decreases depth, a, 0
  {
    var items := SequenceItems(v).value;
    var parts := ByPosition(env, depth, a, items);
    CollectIsAll(parts);
    var results := Collect(parts).value;
    forall i | 0 <= i < |items| ensures NeverNo(env, a.elements[i], results[i]) {
      assert parts[i] == Ok(results[i]);
      ValidatedIsChecked(env, depth, a.elements[i], items[i]);
    }
    forall d: nat ensures !Check(env, d, a, Tuple(results)).No? {
      forall i | 0 <= i < |results| ensures !CheckByPosition(env, d, a, results)[i].No? {
        assert NeverNo(env, a.elements[i], results[i]);
      }
      AllMeansNoNo(CheckByPosition(env, d, a, results));
    }
  }

  lemma {:induction false} SequenceIsChecked(env: Environment, depth: nat, a: Annotation, v: Value)
    requires ProperAliases(env) && Proper(a) && a.SequenceA?
    requires Validate(env, depth, a, v).Ok?
    ensures NeverNo(env, a, Validate(env, depth, a, v).value)
    decreases depth, a, 0
  {
    var items := SequenceItems(v).value;
    var parts := ByElement(env, depth, a, items);
    CollectIsAll(parts);
    var results := Collect(parts).value;
    forall i | 0 <= i < |items| ensures NeverNo(env, a.element, results[i]) {
      assert parts[i] == Ok(results[i]);
      ValidatedIsChecked(env, depth, a.element, items[i]);
    }
    forall d: nat ensures !Check(env, d, a, Tuple(results)).No? {
      forall i | 0 <= i < |results| ensures !CheckByElement(env, d, a, results)[i].No? {
        assert NeverNo(env, a.element, results[i]);
      }
      AllMeansNoNo(CheckByElement(env, d, a, results));
    }
  }

  lemma {:induction false} SetIsChecked(env: Environment, depth: nat, a: Annotation, v: Value)
    requires ProperAliases(env) && Proper(a) && a.SetA?
    requires Validate(env, depth, a, v).Ok?
    ensures NeverNo(env, a, Validate(env, depth, a, v).value)
    decreases depth, a, 0
  {
    var items := IterableItems(v).value;
    var parts := ByElement(env, depth, a, items);
    CollectIsAll(parts);
    var results := Collect(parts).value;
    var kept := Dedup(results);
    forall i | 0 <= i < |kept| ensures NeverNo(env, a.element, kept[i]) {
      assert kept[i] in results;
      var j :| 0 <= j < |results| && results[j] == kept[i];
      assert parts[j] == Ok(results[j]);
      ValidatedIsChecked(env, depth, a.element, items[j]);
    }
    forall d: nat ensures !Check(env, d, a, Set(kept)).No? {
      forall i | 0 <= i < |kept| ensures !CheckByElement(env, d, a, kept)[i].No? {
        assert NeverNo(env, a.element, kept[i]);
      }
      AllMeansNoNo(CheckByElement(env, d, a, kept));
    }
  }

  lemma {:induction false} MappingIsChecked(env: Environment, depth: nat, a: Annotation, v: Value)
    requires ProperAliases(env) && Proper(a) && a.MappingA?
    requires Validate(env, depth, a, v).Ok?
    ensures NeverNo(env, a, Validate(env, depth, a, v).value)
    decreases depth, a, 0
  {
    var parts := ByPair(env, depth, a, v.entries);
    CollectIsAll(parts);
    var pairs := Collect(parts).value;
    var kept := DictOf(pairs);
    DictIsDistinct(pairs);
    forall j | 0 <= j < |pairs| ensures NeverNo(env, a.key, pairs[j].0) && NeverNo(env, a.element, pairs[j].1) {
      assert parts[j] == Ok(pairs[j]);
      ValidatedIsChecked(env, depth, a.key, v.entries[j].0);
      ValidatedIsChecked(env, depth, a.element, v.entries[j].1);
    }
    forall i | 0 <= i < |kept| ensures NeverNo(env, a.key, kept[i].0) && NeverNo(env, a.element, kept[i].1) {
      assert ComesFrom(pairs, kept[i]);
    }
    EntriesAreChecked(env, a, kept);
  }

  lemma EntriesAreChecked(env: Environment, a: Annotation, entries: seq<(Value, Value)>)
    requires a.MappingA?
    requires forall i | 0 <= i < |entries| :: NeverNo(env, a.key, entries[i].0) && NeverNo(env, a.element, entries[i].1)
    ensures NeverNo(env, a, Dict(entries))
  {
    forall d: nat ensures !Check(env, d, a, Dict(entries)).No? {
      forall i | 0 <= i < |entries| ensures !CheckByPair(env, d, a, entries)[i].No? {
        AllMeansNoNo([Check(env, d, a.key, entries[i].0), Check(env, d, a.element, entries[i].1)]);
      }
      AllMeansNoNo(CheckByPair(env, d, a, entries));
    }
  }

  lemma {:induction false} TypedDictIsChecked(env: Environment, depth: nat, a: Annotation, v: Value)
    requires ProperAliases(env) && Proper(a) && a.TypedDictA?
    requires Validate(env, depth, a, v).Ok?
    ensures NeverNo(env, a, Validate(env, depth, a, v).value)
    decreases depth, a, 0
  {
    var parts := ByMember(env, depth, a, v.entries);
    CollectIsAll(parts);
    var pairs := Collect(parts).value;
    PairsAreMembers(env, depth, a, v.entries);
    var entries := Present(pairs);
    forall i, d: nat | 0 <= i < |a.members| ensures !CheckByMember(env, d, a, entries)[i].No? {
      assert parts[i] == Ok(pairs[i]);
      MembersFound(Names(a.members), pairs, i);
      if pairs[i].Some? {
        ValidatedIsChecked(env, depth, a.members[i].annotation, Lookup(v.entries, Str(a.members[i].name)).value);
        AnyMeansNotAllNo([Check(env, d, a.members[i].annotation, pairs[i].value.1),
                          Answers(!a.members[i].required)], 0);
      }
    }
    PresentIsDistinct(Names(a.members), pairs);
    DictOfDistinct(entries);
    forall d: nat ensures !Check(env, d, a, Dict(entries)).No? {
      AllMeansNoNo(CheckByMember(env, d, a, entries));
    }
  }

  lemma {:induction false} UnionIsChecked(env: Environment, depth: nat, a: Annotation, v: Value)
    requires ProperAliases(env) && Proper(a) && a.UnionA?
    requires Validate(env, depth, a, v).Ok?
    ensures NeverNo(env, a, Validate(env, depth, a, v).value)
    decreases depth, a, 0
  {
    var parts := ByAlternative(env, depth, a, v);
    FirstOkIsFirst(parts);
    var r := Validate(env, depth, a, v);
    var i :| 0 <= i < |parts| && parts[i] == r;
    ValidatedIsChecked(env, depth, a.alternatives[i], v);
    forall d: nat ensures !Check(env, d, a, r.value).No? {
      assert CheckByAlternative(env, d, a, r.value)[i] == Check(env, d, a.alternatives[i], r.value);
      AnyMeansNotAllNo(CheckByAlternative(env, d, a, r.value), i);
    }
  }
}
