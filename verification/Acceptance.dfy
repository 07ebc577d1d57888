/**
When `check` answers at all: with aliases that always reach a part of the value before they recur, the
result of a validation is answered with yes.
*/
module Acceptance {
  import opened Wrappers
  import opened Values
  import opened Annotations
  import opened Soundness

  /** The annotation accepts every text, whatever its parts are. */
  predicate TakesText(a: Annotation) {
    match a
    case AnyA => true
    case StrA => true
    case VerifiedA(base, _) => TakesText(base)
    case ValidatedA(base, _) => TakesText(base)
    case _ => false
  }

  /** At most `level` aliases are followed before a part of the value is looked at.  For one character of
      text a tuple of one element is no progress, because the only character of the text is that text; but
      an alternative of a union is not reached when an earlier one takes every text. */
  ghost predicate Guarded(env: Environment, level: nat, character: bool, a: Annotation)
    decreases level, a
  {
    match a
    case AliasA(name) => level > 0 && name in env.aliases && Guarded(env, level - 1, character, env.aliases[name])
    case UnionA(alternatives, _) =>
      forall i | 0 <= i < |alternatives| ::
        || (character && exists j :: 0 <= j < i && TakesText(alternatives[j]))
        || Guarded(env, level, character, alternatives[i])
    case TupleA(elements) => character && |elements| == 1 ==> Guarded(env, level, character, elements[0])
    case VerifiedA(base, _) => Guarded(env, level, character, base)
    case ValidatedA(base, _) => Guarded(env, level, character, base)
    case _ => true
  }

  /** So does every part of the annotation, for characters and for other values. */
  ghost predicate AllGuarded(env: Environment, level: nat, a: Annotation)
    decreases a
  {
    && Guarded(env, level, true, a) && Guarded(env, level, false, a)
    && match a
       case UnionA(alternatives, _) => forall i | 0 <= i < |alternatives| :: AllGuarded(env, level, alternatives[i])
       case TupleA(elements) => forall i | 0 <= i < |elements| :: AllGuarded(env, level, elements[i])
       case SequenceA(element) => AllGuarded(env, level, element)
       case SetA(element) => AllGuarded(env, level, element)
       case MappingA(key, element) => AllGuarded(env, level, key) && AllGuarded(env, level, element)
       case TypedDictA(members) => forall i | 0 <= i < |members| :: AllGuarded(env, level, members[i].annotation)
       case VerifiedA(base, _) => AllGuarded(env, level, base)
       case ValidatedA(base, _) => AllGuarded(env, level, base)
       case _ => true
  }

  ghost predicate GuardedAliases(env: Environment, level: nat) {
    forall name <- env.aliases :: AllGuarded(env, level, env.aliases[name])
  }

  predicate IsCharacter(v: Value) {
    v.Str? && |v.text| == 1
  }

  /** The value is nested at most `height` deep; text counts as nested when it has several characters, bytes
      when there are any. */
  ghost predicate Nested(height: nat, v: Value)
    decreases v
  {
    match v
    case Str(text) => |text| > 1 ==> height > 0
    case Bytes(bytes) => |bytes| > 0 ==> height > 0
    case Tuple(items) => height > 0 && forall i | 0 <= i < |items| :: Nested(height - 1, items[i])
    case List(items) => height > 0 && forall i | 0 <= i < |items| :: Nested(height - 1, items[i])
    case Set(items) => height > 0 && forall i | 0 <= i < |items| :: Nested(height - 1, items[i])
    case Dict(entries) =>
      height > 0 && forall i | 0 <= i < |entries| ::
                      Nested(height - 1, entries[i].0) && Nested(height - 1, entries[i].1)
    case _ => true
  }

  ghost predicate NoneRaises(answers: seq<Answer>) {
    forall i | 0 <= i < |answers| :: !answers[i].Raises?
  }

  lemma {:induction false} CombinedAnswers(answers: seq<Answer>)
    requires NoneRaises(answers)
    ensures !All(answers).Raises? && !Any(answers).Raises?
  {
    if answers != [] {
      CombinedAnswers(answers[1..]);
    }
  }

  lemma {:induction false} TextIsTaken(env: Environment, depth: nat, a: Annotation, v: Value)
    requires TakesText(a) && v.Str?
    ensures Check(env, depth, a, v) == Yes
  {
    match a
    case VerifiedA(base, _) => TextIsTaken(env, depth, base, v);
    case ValidatedA(base, _) => TextIsTaken(env, depth, base, v);
    case _ =>
  }

  /** Alternatives after one that said yes are not asked. */
  lemma {:induction false} AnsweredBefore(answers: seq<Answer>)
    requires forall i | 0 <= i < |answers| :: !answers[i].Raises? || exists j :: 0 <= j < i && answers[j].Yes?
    ensures !Any(answers).Raises?
  {
    if answers != [] && answers[0].No? {
      forall i | 0 <= i < |answers| - 1
        ensures !answers[1..][i].Raises? || exists j :: 0 <= j < i && answers[1..][j].Yes?
      {
        if answers[i + 1].Raises? {
          var j :| 0 <= j < i + 1 && answers[j].Yes?;
          assert answers[1..][j - 1].Yes?;
        }
      }
      AnsweredBefore(answers[1..]);
    }
  }

  /** The recursion depth that checking needs. */
  ghost predicate Deep(depth: nat, level: nat, height: nat, left: nat) {
    depth >= height * level + left
  }

  lemma DeepInside(depth: nat, level: nat, height: nat, left: nat)
    requires Deep(depth, level, height, left) && height > 0
    ensures Deep(depth, level, height - 1, level)
  {
    assert height * level == (height - 1) * level + level;
  }

  /** With enough depth a check always answers. */
  lemma {:induction false} CheckAnswers(env: Environment, level: nat, height: nat, left: nat, depth: nat,
                                        a: Annotation, v: Value)
    requires GuardedAliases(env, level) && AllGuarded(env, level, a) && Guarded(env, left, IsCharacter(v), a)
    requires Nested(height, v) && Deep(depth, level, height, left)
    ensures !Check(env, depth, a, v).Raises?
    decreases height, left, a
  {
    match a
    case TupleA(elements) => TupleAnswers(env, level, height, left, depth, a, v);
    case SequenceA(_) =>
      if SequenceItems(v).Some? {
        ElementsAnswer(env, level, height, left, depth, a, v);
      }
    case SetA(_) =>
      if v.Set? {
        ElementsAnswer(env, level, height, left, depth, a, v);
      }
    case MappingA(key, element) =>
      if v.Dict? {
        DeepInside(depth, level, height, left);
        var answers := CheckByPair(env, depth, a, v.entries);
        forall i | 0 <= i < |answers| ensures !answers[i].Raises? {
          CheckAnswers(env, level, height - 1, level, depth, key, v.entries[i].0);
          CheckAnswers(env, level, height - 1, level, depth, element, v.entries[i].1);
          CombinedAnswers([Check(env, depth, key, v.entries[i].0), Check(env, depth, element, v.entries[i].1)]);
        }
        CombinedAnswers(answers);
      }
    case TypedDictA(_) =>
      if v.Dict? {
        MembersAnswer(env, level, height, left, depth, a, v);
      }
    case UnionA(_, _) => AlternativesAnswer(env, level, height, left, depth, a, v);
    case AliasA(name) => CheckAnswers(env, level, height, left - 1, depth - 1, env.aliases[name], v);
    case VerifiedA(base, _) => CheckAnswers(env, level, height, left, depth, base, v);
    case ValidatedA(base, _) => CheckAnswers(env, level, height, left, depth, base, v);
    case _ =>
  }

  lemma {:induction false} AlternativesAnswer(env: Environment, level: nat, height: nat, left: nat, depth: nat,
                                              a: Annotation,
                                              v: Value)
    requires GuardedAliases(env, level) && AllGuarded(env, level, a) && Guarded(env, left, IsCharacter(v), a)
    requires a.UnionA?
    requires Nested(height, v) && Deep(depth, level, height, left)
    ensures !Any(CheckByAlternative(env, depth, a, v)).Raises?
    decreases height, left, a, 0
  {
    var answers := CheckByAlternative(env, depth, a, v);
    forall i | 0 <= i < |answers|
      ensures !answers[i].Raises? || exists j :: 0 <= j < i && answers[j].Yes?
    {
      if IsCharacter(v) && exists j :: 0 <= j < i && TakesText(a.alternatives[j]) {
        var j :| 0 <= j < i && TakesText(a.alternatives[j]);
        TextIsTaken(env, depth, a.alternatives[j], v);
        assert answers[j].Yes?;
      } else {
        CheckAnswers(env, level, height, left, depth, a.alternatives[i], v);
      }
    }
    AnsweredBefore(answers);
  }

  lemma {:induction false} ElementsAnswer(env: Environment, level: nat, height: nat, left: nat, depth: nat,
                                          a: Annotation, v: Value)
    requires GuardedAliases(env, level) && AllGuarded(env, level, a) && (a.SequenceA? || a.SetA?)
    requires (v.Tuple? || v.List? || v.Set?) && Nested(height, v) && Deep(depth, level, height, left)
    ensures !All(CheckByElement(env, depth, a, v.items)).Raises?
    decreases height, left, a, 0
  {
    DeepInside(depth, level, height, left);
    var answers := CheckByElement(env, depth, a, v.items);
    forall i | 0 <= i < |answers| ensures !answers[i].Raises? {
      CheckAnswers(env, level, height - 1, level, depth, a.element, v.items[i]);
    }
    CombinedAnswers(answers);
  }

  lemma {:induction false} TupleAnswers(env: Environment, level: nat, height: nat, left: nat, depth: nat,
                                        a: Annotation, v: Value)
    requires GuardedAliases(env, level) && AllGuarded(env, level, a) && Guarded(env, left, IsCharacter(v), a)
    requires a.TupleA?
    requires Nested(height, v) && Deep(depth, level, height, left)
    ensures !Check(env, depth, a, v).Raises?
    decreases height, left, a, 0
  {
    if AnyItems(v).Some? && |AnyItems(v).value| == |a.elements| {
      var items := AnyItems(v).value;
      var answers := CheckByPosition(env, depth, a, items);
      forall i | 0 <= i < |answers| ensures !answers[i].Raises? {
        if IsCharacter(v) {
          assert items[0] == v;
          CheckAnswers(env, level, height, left, depth, a.elements[0], items[0]);
        } else {
          DeepInside(depth, level, height, left);
          CheckAnswers(env, level, height - 1, level, depth, a.elements[i], items[i]);
        }
      }
      CombinedAnswers(answers);
    }
  }

  lemma {:induction false} MembersAnswer(env: Environment, level: nat, height: nat, left: nat, depth: nat,
                                         a: Annotation, v: Value)
    requires GuardedAliases(env, level) && AllGuarded(env, level, a) && a.TypedDictA?
    requires v.Dict? && Nested(height, v) && Deep(depth, level, height, left)
    ensures !Check(env, depth, a, v).Raises?
    decreases height, left, a, 0
  {
    DeepInside(depth, level, height, left);
    var answers := CheckByMember(env, depth, a, v.entries);
    forall i | 0 <= i < |answers| ensures !answers[i].Raises? {
      var member := a.members[i];
      var found := Lookup(v.entries, Str(member.name));
      if found.Some? {
        CheckAnswers(env, level, height - 1, level, depth, member.annotation, found.value);
        CombinedAnswers([Check(env, depth, member.annotation, found.value), Answers(!member.required)]);
      }
    }
    CombinedAnswers(answers);
  }

  /** Whatever validation returns is accepted by `check`, given a depth that the nesting of the value and of
      the aliases determines. */
  lemma ValidatedIsAccepted(env: Environment, depth: nat, a: Annotation, v: Value, level: nat, height: nat, enough: nat)
    requires ProperAliases(env) && Proper(a) && Validate(env, depth, a, v).Ok?
    requires GuardedAliases(env, level) && AllGuarded(env, level, a)
    requires Nested(height, Validate(env, depth, a, v).value) && enough >= height * level + level
    ensures Check(env, enough, a, Validate(env, depth, a, v).value) == Yes
  {
    ValidatedIsChecked(env, depth, a, v);
    CheckAnswers(env, level, height, level, enough, a, Validate(env, depth, a, v).value);
  }

  ghost function OwnTuple(): Annotation {
    UnionA([TupleA([AliasA("A")]), StrA], (v: Value) => true)
  }

  lemma OneCharacterIsValid(env: Environment, depth: nat)
    requires "A" in env.aliases && env.aliases["A"] == OwnTuple()
    ensures Validate(env, depth + 1, AliasA("A"), Str("a")) == Ok(Str("a"))
  {
    var attempts := ByAlternative(env, depth, OwnTuple(), Str("a"));
    assert attempts[0].Err? && attempts[1] == Ok(Str("a"));
    FirstOkIsFirst(attempts);
    assert FirstOk(attempts) == Ok(Str("a"));
  }

  /** `type A = tuple[A] | str`: the text "a" is valid, but checking it looks at its only character, which is
      "a" again, without end. */
  lemma {:induction false} OneCharacterNeverAnswers(env: Environment, depth: nat)
    requires "A" in env.aliases && env.aliases["A"] == OwnTuple()
    ensures Validate(env, depth + 1, AliasA("A"), Str("a")) == Ok(Str("a"))
    ensures Check(env, depth, AliasA("A"), Str("a")) == Raises
    decreases depth
  {
    OneCharacterIsValid(env, depth);
    if depth > 0 {
      OneCharacterNeverAnswers(env, depth - 1);
      TupleOfItself(env, depth - 1);
    }
  }

  lemma TupleOfItself(env: Environment, depth: nat)
    requires Check(env, depth, AliasA("A"), Str("a")) == Raises
    ensures Check(env, depth, OwnTuple(), Str("a")) == Raises
  {
    var text, tuple := Str("a"), TupleA([AliasA("A")]);
    assert AnyItems(text).value == [text];
    assert CheckByPosition(env, depth, tuple, [text]) == [Raises];
    assert CheckByAlternative(env, depth, OwnTuple(), text)[0] == Raises;
  }

  /** `type A = str | tuple[A]`: with the text first its check answers, and the alias makes progress. */
  lemma TextFirstAnswers(env: Environment, depth: nat)
    requires "A" in env.aliases && env.aliases["A"] == UnionA([StrA, TupleA([AliasA("A")])], (v: Value) => true)
    ensures Check(env, depth + 1, AliasA("A"), Str("a")) == Yes
    ensures AllGuarded(env, 1, env.aliases["A"])
  {
    var union := env.aliases["A"];
    assert CheckByAlternative(env, depth, union, Str("a"))[0] == Yes;
    assert TakesText(union.alternatives[0]);
    assert Guarded(env, 1, false, AliasA("A")) && AllGuarded(env, 1, StrA);
    TupleAfterTextIsGuarded(env);
  }

  lemma TupleAfterTextIsGuarded(env: Environment)
    requires "A" in env.aliases && env.aliases["A"] == UnionA([StrA, TupleA([AliasA("A")])], (v: Value) => true)
    ensures AllGuarded(env, 1, TupleA([AliasA("A")]))
  {
    var union := env.aliases["A"];
    assert TakesText(union.alternatives[0]);
    assert Guarded(env, 0, true, union) && Guarded(env, 0, false, union);
  }
}
