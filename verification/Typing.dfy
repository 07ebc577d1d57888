/**
What `check` decides: whether a value has a type, said without the answers of a check and how they are
combined.
*/
module Typing {
  import opened Wrappers
  import opened Values
  import opened Annotations
  import opened Acceptance
  import CheckDepth

  /** The value has the annotated type, with at most `depth` aliases followed on the way to any part of it.
      Text and bytes have the elements that indexing them gives. */
  ghost predicate Has(env: Environment, depth: nat, a: Annotation, v: Value)
    decreases depth, a
  {
    match a
    case AnyA => true
    case NullA => v == Null
    case MissingA => v == Missing
    case BoolA => v.Bool?
    case IntA => v.Int? || v.Bool?
    case FloatA => v.Float?
    case StrA => v.Str?
    case BytesA => v.Bytes?
    case SpecialA(kind) => v.Special? && v.kind == kind
    case LiteralA(values) => exists i :: 0 <= i < |values| && Same(values[i], v)
    case TupleA(elements) =>
      (match v
       case Tuple(items) =>
         |items| == |elements| && forall i | 0 <= i < |items| :: Has(env, depth, elements[i], items[i])
       case List(items) =>
         |items| == |elements| && forall i | 0 <= i < |items| :: Has(env, depth, elements[i], items[i])
       case Str(text) =>
         |text| == |elements| && forall i | 0 <= i < |text| :: Has(env, depth, elements[i], Str([text[i]]))
       case Bytes(bytes) =>
         |bytes| == |elements| && forall i | 0 <= i < |bytes| :: Has(env, depth, elements[i], Int(bytes[i]))
       case _ => false)
    case SequenceA(element) =>
      (v.Tuple? || v.List?) && forall i | 0 <= i < |v.items| :: Has(env, depth, element, v.items[i])
    case SetA(element) => v.Set? && forall i | 0 <= i < |v.items| :: Has(env, depth, element, v.items[i])
    case MappingA(key, element) =>
      && v.Dict?
      && forall i | 0 <= i < |v.entries| ::
           Has(env, depth, key, v.entries[i].0) && Has(env, depth, element, v.entries[i].1)
    case TypedDictA(members) =>
      && v.Dict?
      && forall i | 0 <= i < |members| && members[i].required ::
           var found := Lookup(v.entries, Str(members[i].name));
           found.Some? && Has(env, depth, members[i].annotation, found.value)
    case UnionA(alternatives, _) => exists i :: 0 <= i < |alternatives| && Has(env, depth, alternatives[i], v)
    case StateA(cls) => v.State? && v.cls == cls
    case AliasA(name) => depth > 0 && name in env.aliases && Has(env, depth - 1, env.aliases[name], v)
    case VerifiedA(base, _) => Has(env, depth, base, v)
    case ValidatedA(base, _) => Has(env, depth, base, v)
  }

  lemma {:induction false} HasDeeper(env: Environment, depth: nat, more: nat, a: Annotation, v: Value)
    requires Has(env, depth, a, v) && depth <= more
    ensures Has(env, more, a, v)
    decreases depth, a
  {
    match a
    case TupleA(elements) => TupleDeeper(env, depth, more, a, v);
    case SequenceA(element) =>
      forall i | 0 <= i < |v.items| ensures Has(env, more, element, v.items[i]) {
        HasDeeper(env, depth, more, element, v.items[i]);
      }
    case SetA(element) =>
      forall i | 0 <= i < |v.items| ensures Has(env, more, element, v.items[i]) {
        HasDeeper(env, depth, more, element, v.items[i]);
      }
    case MappingA(key, element) =>
      forall i | 0 <= i < |v.entries|
        ensures Has(env, more, key, v.entries[i].0) && Has(env, more, element, v.entries[i].1)
      {
        HasDeeper(env, depth, more, key, v.entries[i].0);
        HasDeeper(env, depth, more, element, v.entries[i].1);
      }
    case TypedDictA(members) =>
      forall i | 0 <= i < |members| && members[i].required
        ensures Has(env, more, members[i].annotation, Lookup(v.entries, Str(members[i].name)).value)
      {
        HasDeeper(env, depth, more, members[i].annotation, Lookup(v.entries, Str(members[i].name)).value);
      }
    case UnionA(alternatives, _) =>
      var i :| 0 <= i < |alternatives| && Has(env, depth, alternatives[i], v);
      HasDeeper(env, depth, more, alternatives[i], v);
    case AliasA(name) => HasDeeper(env, depth - 1, more - 1, env.aliases[name], v);
    case VerifiedA(base, _) => HasDeeper(env, depth, more, base, v);
    case ValidatedA(base, _) => HasDeeper(env, depth, more, base, v);
    case _ =>
  }

  lemma {:induction false} TupleDeeper(env: Environment, depth: nat, more: nat, a: Annotation, v: Value)
    requires Has(env, depth, a, v) && depth <= more && a.TupleA?
    ensures Has(env, more, a, v)
    decreases depth, a, 0
  {
    match v
    case Tuple(items) =>
      forall i | 0 <= i < |items| ensures Has(env, more, a.elements[i], items[i]) {
        HasDeeper(env, depth, more, a.elements[i], items[i]);
      }
    case List(items) =>
      forall i | 0 <= i < |items| ensures Has(env, more, a.elements[i], items[i]) {
        HasDeeper(env, depth, more, a.elements[i], items[i]);
      }
    case Str(text) =>
      forall i | 0 <= i < |text| ensures Has(env, more, a.elements[i], Str([text[i]])) {
        HasDeeper(env, depth, more, a.elements[i], Str([text[i]]));
      }
    case Bytes(bytes) =>
      forall i | 0 <= i < |bytes| ensures Has(env, more, a.elements[i], Int(bytes[i])) {
        HasDeeper(env, depth, more, a.elements[i], Int(bytes[i]));
      }
  }

  // ----- Combined answers -----------------------------------------------------------------------

  lemma {:induction false} AllAnswers(answers: seq<Answer>)
    ensures All(answers).Yes? <==> forall i | 0 <= i < |answers| :: answers[i].Yes?
    ensures All(answers).No? ==> exists i :: 0 <= i < |answers| && answers[i].No?
  {
    if answers != [] {
      AllAnswers(answers[1..]);
      assert forall i | 0 < i < |answers| :: answers[1..][i - 1] == answers[i];
      if All(answers).No? && answers[0].Yes? {
        var i :| 0 <= i < |answers| - 1 && answers[1..][i].No?;
        assert answers[i + 1].No?;
      }
    }
  }

  lemma {:induction false} AnyAnswers(answers: seq<Answer>)
    ensures Any(answers).No? <==> forall i | 0 <= i < |answers| :: answers[i].No?
    ensures Any(answers).Yes? ==> exists i :: 0 <= i < |answers| && answers[i].Yes?
  {
    if answers != [] {
      AnyAnswers(answers[1..]);
      assert forall i | 0 < i < |answers| :: answers[1..][i - 1] == answers[i];
      if Any(answers).Yes? && answers[0].No? {
        var i :| 0 <= i < |answers| - 1 && answers[1..][i].Yes?;
        assert answers[i + 1].Yes?;
      }
    }
  }

  // ----- What the answers mean ------------------------------------------------------------------

  /** The answer, if there is one, says whether the value has the type. */
  ghost predicate Right(env: Environment, depth: nat, a: Annotation, v: Value) {
    && (Check(env, depth, a, v).Yes? ==> Has(env, depth, a, v))
    && (Check(env, depth, a, v).No? ==> !Has(env, depth, a, v))
  }

  /** For every annotation and value: a yes means that the value has the type, and a no that it has not. */
  lemma {:induction false} CheckIsRight(env: Environment, depth: nat, a: Annotation, v: Value)
    ensures Right(env, depth, a, v)
    decreases depth, a, 1
  {
    match a
    case TupleA(_) => TupleIsRight(env, depth, a, v);
    case SequenceA(_) => ElementsAreRight(env, depth, a, v);
    case SetA(_) => ElementsAreRight(env, depth, a, v);
    case MappingA(_, _) => EntriesAreRight(env, depth, a, v);
    case TypedDictA(_) => MembersAreRight(env, depth, a, v);
    case UnionA(_, _) => AlternativesAreRight(env, depth, a, v);
    case AliasA(_) => InnerIsRight(env, depth, a, v);
    case VerifiedA(_, _) => InnerIsRight(env, depth, a, v);
    case ValidatedA(_, _) => InnerIsRight(env, depth, a, v);
    case SpecialA(_) => ClassIsRight(env, depth, a, v);
    case LiteralA(_) => ClassIsRight(env, depth, a, v);
    case StateA(_) => ClassIsRight(env, depth, a, v);
    case _ => ScalarIsRight(env, depth, a, v);
  }

  lemma ScalarIsRight(env: Environment, depth: nat, a: Annotation, v: Value)
    requires a.AnyA? || a.NullA? || a.MissingA? || a.BoolA? || a.IntA? || a.FloatA? || a.StrA? || a.BytesA?
    ensures Right(env, depth, a, v)
  {
  }

  lemma ClassIsRight(env: Environment, depth: nat, a: Annotation, v: Value)
    requires a.SpecialA? || a.LiteralA? || a.StateA?
    ensures Right(env, depth, a, v)
  {
  }

  lemma {:induction false} InnerIsRight(env: Environment, depth: nat, a: Annotation, v: Value)
    requires a.AliasA? || a.VerifiedA? || a.ValidatedA?
    ensures Right(env, depth, a, v)
    decreases depth, a, 0
  {
    match a
    case AliasA(name) =>
      if depth > 0 && name in env.aliases {
        CheckIsRight(env, depth - 1, env.aliases[name], v);
      }
    case VerifiedA(base, _) => CheckIsRight(env, depth, base, v);
    case ValidatedA(base, _) => CheckIsRight(env, depth, base, v);
  }

  lemma {:induction false} AlternativesAreRight(env: Environment, depth: nat, a: Annotation, v: Value)
    requires a.UnionA?
    ensures Right(env, depth, a, v)
    decreases depth, a, 0
  {
    var answers := CheckByAlternative(env, depth, a, v);
    AnyAnswers(answers);
    forall i | 0 <= i < |a.alternatives| ensures Right(env, depth, a.alternatives[i], v) {
      CheckIsRight(env, depth, a.alternatives[i], v);
    }
    assert forall i | 0 <= i < |a.alternatives| :: answers[i] == Check(env, depth, a.alternatives[i], v);
  }

  lemma {:induction false} TupleIsRight(env: Environment, depth: nat, a: Annotation, v: Value)
    requires a.TupleA?
    ensures Right(env, depth, a, v)
    decreases depth, a, 0
  {
    if AnyItems(v).Some? && |AnyItems(v).value| == |a.elements| {
      var items := AnyItems(v).value;
      var answers := CheckByPosition(env, depth, a, items);
      AllAnswers(answers);
      forall i | 0 <= i < |items| ensures Right(env, depth, a.elements[i], items[i]) {
        CheckIsRight(env, depth, a.elements[i], items[i]);
      }
      assert forall i | 0 <= i < |items| :: answers[i] == Check(env, depth, a.elements[i], items[i]);
      assert Has(env, depth, a, v) <==> forall i | 0 <= i < |items| :: Has(env, depth, a.elements[i], items[i]) by {
        ItemsOfTuple(env, depth, a, v);
      }
    }
  }

  lemma ItemsOfTuple(env: Environment, depth: nat, a: Annotation, v: Value)
    requires a.TupleA? && AnyItems(v).Some? && |AnyItems(v).value| == |a.elements|
    ensures Has(env, depth, a, v) <==>
            forall i | 0 <= i < |a.elements| :: Has(env, depth, a.elements[i], AnyItems(v).value[i])
  {
  }

  lemma {:induction false} ElementsAreRight(env: Environment, depth: nat, a: Annotation, v: Value)
    requires a.SequenceA? || a.SetA?
    ensures Right(env, depth, a, v)
    decreases depth, a, 0
  {
    if (a.SequenceA? && (v.Tuple? || v.List?)) || (a.SetA? && v.Set?) {
      var answers := CheckByElement(env, depth, a, v.items);
      AllAnswers(answers);
      forall i | 0 <= i < |v.items| ensures Right(env, depth, a.element, v.items[i]) {
        CheckIsRight(env, depth, a.element, v.items[i]);
      }
      assert forall i | 0 <= i < |v.items| :: answers[i] == Check(env, depth, a.element, v.items[i]);
    }
  }

  lemma {:induction false} EntriesAreRight(env: Environment, depth: nat, a: Annotation, v: Value)
    requires a.MappingA?
    ensures Right(env, depth, a, v)
    decreases depth, a, 0
  {
    if v.Dict? {
      var answers := CheckByPair(env, depth, a, v.entries);
      AllAnswers(answers);
      forall i | 0 <= i < |v.entries|
        ensures answers[i].Yes? ==> Has(env, depth, a.key, v.entries[i].0) && Has(env, depth, a.element, v.entries[i].1)
        ensures answers[i].No? ==>
                  !(Has(env, depth, a.key, v.entries[i].0) && Has(env, depth, a.element, v.entries[i].1))
      {
        CheckIsRight(env, depth, a.key, v.entries[i].0);
        CheckIsRight(env, depth, a.element, v.entries[i].1);
        AllAnswers([Check(env, depth, a.key, v.entries[i].0), Check(env, depth, a.element, v.entries[i].1)]);
      }
    }
  }

  ghost predicate MemberHas(env: Environment, depth: nat, member: Member, entries: seq<(Value, Value)>) {
    var found := Lookup(entries, Str(member.name));
    member.required ==> found.Some? && Has(env, depth, member.annotation, found.value)
  }

  lemma {:induction false} MembersAreRight(env: Environment, depth: nat, a: Annotation, v: Value)
    requires a.TypedDictA?
    ensures Right(env, depth, a, v)
    decreases depth, a, 0
  {
    if v.Dict? {
      var answers := CheckByMember(env, depth, a, v.entries);
      AllAnswers(answers);
      forall i | 0 <= i < |a.members|
        ensures answers[i].Yes? ==> MemberHas(env, depth, a.members[i], v.entries)
        ensures answers[i].No? ==> !MemberHas(env, depth, a.members[i], v.entries)
      {
        var member := a.members[i];
        var found := Lookup(v.entries, Str(member.name));
        if found.Some? {
          CheckIsRight(env, depth, member.annotation, found.value);
          AnyAnswers([Check(env, depth, member.annotation, found.value), Answers(!member.required)]);
        }
      }
      assert Has(env, depth, a, v) <==>
             forall i | 0 <= i < |a.members| :: MemberHas(env, depth, a.members[i], v.entries);
    }
  }

  ghost predicate HasType(env: Environment, a: Annotation, v: Value) {
    exists depth: nat :: Has(env, depth, a, v)
  }

  /** When a check ends at all, it answers yes exactly if the value has the type, and otherwise no. */
  lemma CheckIsExactIff(env: Environment, depth: nat, a: Annotation, v: Value)
    requires !Check(env, depth, a, v).Raises?
    ensures Check(env, depth, a, v).Yes? <==> HasType(env, a, v)
  {
    if HasType(env, a, v) {
      var some: nat :| Has(env, some, a, v);
      HasIsAnswered(env, depth, some, a, v);
    }
    YesIsHas(env, depth, a, v);
  }

  lemma YesIsHas(env: Environment, depth: nat, a: Annotation, v: Value)
    ensures Check(env, depth, a, v).Yes? ==> HasType(env, a, v)
  {
    CheckIsRight(env, depth, a, v);
  }

  lemma HasIsAnswered(env: Environment, depth: nat, some: nat, a: Annotation, v: Value)
    requires Has(env, some, a, v) && !Check(env, depth, a, v).Raises?
    ensures Check(env, depth, a, v).Yes?
  {
    var more := if some > depth then some else depth;
    HasDeeper(env, some, more, a, v);
    CheckDepth.MuchMoreDepth(env, depth, more, a, v);
    CheckIsRight(env, more, a, v);
  }

  /** The depth that the nesting of the value and the number of aliases determine is enough: there the check
      says yes if and only if it ends and the value has the type. */
  lemma EnoughDepthDecides(env: Environment, height: nat, a: Annotation, v: Value)
    requires Nested(height, v)
    ensures Check(env, CheckDepth.Enough(env, height), a, v).Yes? <==>
            (exists depth: nat :: !Check(env, depth, a, v).Raises?) && HasType(env, a, v)
  {
    CheckDepth.CheckEndsIff(env, height, a, v);
    if !Check(env, CheckDepth.Enough(env, height), a, v).Raises? {
      CheckIsExactIff(env, CheckDepth.Enough(env, height), a, v);
    }
  }
}
