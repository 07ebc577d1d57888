/**
When `check` answers at all: exactly when it answers within a number of alias steps that the value and the
number of aliases determine.
*/
module CheckDepth {
  import opened Wrappers
  import opened Values
  import opened Annotations
  import opened Soundness
  import opened Acceptance

  /** One more step of depth makes no difference to the answer. */
  ghost predicate Same(env: Environment, depth: nat, a: Annotation, v: Value) {
    Check(env, depth, a, v) == Check(env, depth + 1, a, v)
  }

  ghost predicate Settled(env: Environment, depth: nat, v: Value) {
    forall a: Annotation :: Same(env, depth, a, v)
  }

  ghost predicate AliasesSame(env: Environment, depth: nat, v: Value) {
    forall name <- env.aliases :: Same(env, depth, AliasA(name), v)
  }

  ghost predicate AllSettled(env: Environment, depth: nat, items: seq<Value>) {
    forall i | 0 <= i < |items| :: Settled(env, depth, items[i])
  }

  /** The answers about the parts of the value are settled; one character of text has no parts but itself. */
  ghost predicate PartsSettled(env: Environment, depth: nat, v: Value) {
    match v
    case Dict(entries) =>
      AllSettled(env, depth, Keys(entries))
      && forall i | 0 <= i < |entries| :: Settled(env, depth, entries[i].1)
    case Set(items) => AllSettled(env, depth, items)
    case _ => !IsCharacter(v) && AnyItems(v).Some? ==> AllSettled(env, depth, AnyItems(v).value)
  }

  // ----- More depth never changes an answer -----------------------------------------------------

  /** Where one list has an answer, the other has it too. */
  ghost predicate Refines(answers: seq<Answer>, more: seq<Answer>) {
    |answers| == |more| && forall i | 0 <= i < |answers| :: answers[i].Raises? || more[i] == answers[i]
  }

  lemma {:induction false} CombinedRefine(answers: seq<Answer>, more: seq<Answer>)
    requires Refines(answers, more)
    ensures All(answers).Raises? || All(more) == All(answers)
    ensures Any(answers).Raises? || Any(more) == Any(answers)
  {
    if answers != [] {
      CombinedRefine(answers[1..], more[1..]);
    }
  }

  lemma {:induction false} MoreDepth(env: Environment, depth: nat, a: Annotation, v: Value)
    ensures Check(env, depth, a, v).Raises? || Check(env, depth + 1, a, v) == Check(env, depth, a, v)
    decreases depth, a
  {
    match a
    case TupleA(elements) =>
      if AnyItems(v).Some? && |AnyItems(v).value| == |elements| {
        var items := AnyItems(v).value;
        forall i | 0 <= i < |items|
          ensures Check(env, depth, elements[i], items[i]).Raises?
                  || Check(env, depth + 1, elements[i], items[i]) == Check(env, depth, elements[i], items[i])
        {
          MoreDepth(env, depth, elements[i], items[i]);
        }
        CombinedRefine(CheckByPosition(env, depth, a, items), CheckByPosition(env, depth + 1, a, items));
      }
    case SequenceA(element) =>
      if SequenceItems(v).Some? {
        MoreDepthForAll(env, depth, a, SequenceItems(v).value);
      }
    case SetA(element) =>
      if v.Set? {
        MoreDepthForAll(env, depth, a, v.items);
      }
    case MappingA(_, _) =>
      if v.Dict? {
        MoreDepthForPairs(env, depth, a, v.entries);
      }
    case TypedDictA(_) =>
      if v.Dict? {
        MoreDepthForMembers(env, depth, a, v.entries);
      }
    case UnionA(alternatives, _) =>
      forall i | 0 <= i < |alternatives|
        ensures Check(env, depth, alternatives[i], v).Raises?
                || Check(env, depth + 1, alternatives[i], v) == Check(env, depth, alternatives[i], v)
      {
        MoreDepth(env, depth, alternatives[i], v);
      }
      CombinedRefine(CheckByAlternative(env, depth, a, v), CheckByAlternative(env, depth + 1, a, v));
    case AliasA(name) =>
      if depth > 0 && name in env.aliases {
        MoreDepth(env, depth - 1, env.aliases[name], v);
      }
    case VerifiedA(base, _) => MoreDepth(env, depth, base, v);
    case ValidatedA(base, _) => MoreDepth(env, depth, base, v);
    case _ =>
  }

  lemma {:induction false} MoreDepthForAll(env: Environment, depth: nat, a: Annotation, items: seq<Value>)
    requires a.SequenceA? || a.SetA?
    ensures var answer := All(CheckByElement(env, depth, a, items));
            answer.Raises? || All(CheckByElement(env, depth + 1, a, items)) == answer
    decreases depth, a, 0
  {
    forall i | 0 <= i < |items|
      ensures Check(env, depth, a.element, items[i]).Raises?
              || Check(env, depth + 1, a.element, items[i]) == Check(env, depth, a.element, items[i])
    {
      MoreDepth(env, depth, a.element, items[i]);
    }
    CombinedRefine(CheckByElement(env, depth, a, items), CheckByElement(env, depth + 1, a, items));
  }

  lemma {:induction false} MoreDepthForPairs(env: Environment, depth: nat, a: Annotation, entries: seq<(Value, Value)>)
    requires a.MappingA?
    ensures var answer := All(CheckByPair(env, depth, a, entries));
            answer.Raises? || All(CheckByPair(env, depth + 1, a, entries)) == answer
    decreases depth, a, 0
  {
    forall i | 0 <= i < |entries|
      ensures var answer := CheckByPair(env, depth, a, entries)[i];
              answer.Raises? || CheckByPair(env, depth + 1, a, entries)[i] == answer
    {
      var (k, e) := entries[i];
      MoreDepth(env, depth, a.key, k);
      MoreDepth(env, depth, a.element, e);
      CombinedRefine([Check(env, depth, a.key, k), Check(env, depth, a.element, e)],
                     [Check(env, depth + 1, a.key, k), Check(env, depth + 1, a.element, e)]);
    }
    CombinedRefine(CheckByPair(env, depth, a, entries), CheckByPair(env, depth + 1, a, entries));
  }

  lemma {:induction false} MoreDepthForMembers(env: Environment, depth: nat, a: Annotation,
                                               entries: seq<(Value, Value)>)
    requires a.TypedDictA?
    ensures var answer := All(CheckByMember(env, depth, a, entries));
            answer.Raises? || All(CheckByMember(env, depth + 1, a, entries)) == answer
    decreases depth, a, 0
  {
    forall i | 0 <= i < |a.members|
      ensures var answer := CheckByMember(env, depth, a, entries)[i];
              answer.Raises? || CheckByMember(env, depth + 1, a, entries)[i] == answer
    {
      var member := a.members[i];
      var found := Lookup(entries, Str(member.name));
      if found.Some? {
        MoreDepth(env, depth, member.annotation, found.value);
        CombinedRefine([Check(env, depth, member.annotation, found.value), Answers(!member.required)],
                       [Check(env, depth + 1, member.annotation, found.value), Answers(!member.required)]);
      }
    }
    CombinedRefine(CheckByMember(env, depth, a, entries), CheckByMember(env, depth + 1, a, entries));
  }

  lemma {:induction false} MuchMoreDepth(env: Environment, depth: nat, more: nat, a: Annotation, v: Value)
    requires depth <= more && !Check(env, depth, a, v).Raises?
    ensures Check(env, more, a, v) == Check(env, depth, a, v)
    decreases more
  {
    if depth < more {
      MuchMoreDepth(env, depth, more - 1, a, v);
      MoreDepth(env, more - 1, a, v);
    }
  }

  // ----- Answers settle -------------------------------------------------------------------------

  /** Once the answers about the aliases and about the parts are settled, all are. */
  lemma {:induction false} SettledByAliases(env: Environment, depth: nat, a: Annotation, v: Value)
    requires AliasesSame(env, depth, v) && PartsSettled(env, depth, v)
    ensures Same(env, depth, a, v)
    decreases a
  {
    match a
    case TupleA(elements) =>
      if AnyItems(v).Some? && |AnyItems(v).value| == |elements| {
        var items := AnyItems(v).value;
        forall i | 0 <= i < |items| ensures Same(env, depth, elements[i], items[i]) {
          if IsCharacter(v) {
            assert items[i] == v;
            SettledByAliases(env, depth, elements[i], v);
          }
        }
        assert CheckByPosition(env, depth, a, items) == CheckByPosition(env, depth + 1, a, items);
      }
    case SequenceA(element) =>
      if SequenceItems(v).Some? {
        var items := SequenceItems(v).value;
        assert forall i | 0 <= i < |items| :: Same(env, depth, element, items[i]);
        assert CheckByElement(env, depth, a, items) == CheckByElement(env, depth + 1, a, items);
      }
    case SetA(element) =>
      if v.Set? {
        assert forall i | 0 <= i < |v.items| :: Same(env, depth, element, v.items[i]);
        assert CheckByElement(env, depth, a, v.items) == CheckByElement(env, depth + 1, a, v.items);
      }
    case MappingA(key, element) => SettledMapping(env, depth, a, v);
    case TypedDictA(_) => SettledTypedDict(env, depth, a, v);
    case UnionA(alternatives, _) =>
      forall i | 0 <= i < |alternatives| ensures Same(env, depth, alternatives[i], v) {
        SettledByAliases(env, depth, alternatives[i], v);
      }
      assert CheckByAlternative(env, depth, a, v) == CheckByAlternative(env, depth + 1, a, v);
    case VerifiedA(base, _) => SettledByAliases(env, depth, base, v);
    case ValidatedA(base, _) => SettledByAliases(env, depth, base, v);
    case _ =>
  }

  lemma SettledMapping(env: Environment, depth: nat, a: Annotation, v: Value)
    requires a.MappingA? && PartsSettled(env, depth, v)
    ensures Same(env, depth, a, v)
  {
    if v.Dict? {
      forall i | 0 <= i < |v.entries|
        ensures CheckByPair(env, depth, a, v.entries)[i] == CheckByPair(env, depth + 1, a, v.entries)[i]
      {
        assert Keys(v.entries)[i] == v.entries[i].0;
        assert Same(env, depth, a.key, v.entries[i].0) && Same(env, depth, a.element, v.entries[i].1);
      }
      assert CheckByPair(env, depth, a, v.entries) == CheckByPair(env, depth + 1, a, v.entries);
    }
  }

  lemma SettledTypedDict(env: Environment, depth: nat, a: Annotation, v: Value)
    requires a.TypedDictA? && PartsSettled(env, depth, v)
    ensures Same(env, depth, a, v)
  {
    if v.Dict? {
      forall i | 0 <= i < |a.members|
        ensures CheckByMember(env, depth, a, v.entries)[i] == CheckByMember(env, depth + 1, a, v.entries)[i]
      {
        var found := Lookup(v.entries, Str(a.members[i].name));
        if found.Some? {
          var j :| 0 <= j < |v.entries| && v.entries[j].1 == found.value;
          assert Same(env, depth, a.members[i].annotation, found.value);
        }
      }
      assert CheckByMember(env, depth, a, v.entries) == CheckByMember(env, depth + 1, a, v.entries);
    }
  }

  /** The aliases about which there is no answer yet. */
  ghost function Raising(env: Environment, depth: nat, v: Value): set<string> {
    set name | name in env.aliases && Check(env, depth, AliasA(name), v).Raises?
  }

  /** With each step an alias gets its answer, or nothing will ever change. */
  lemma {:induction false} RaisingShrinks(env: Environment, from: nat, steps: nat, v: Value)
    requires forall depth: nat | depth >= from :: PartsSettled(env, depth, v)
    ensures AliasesSame(env, from + steps, v) || |Raising(env, from + steps, v)| + steps <= |env.aliases|
    decreases steps
  {
    if steps == 0 {
      assert Raising(env, from, v) <= env.aliases.Keys;
      Subset(Raising(env, from, v), env.aliases.Keys);
    } else {
      var before := from + steps - 1;
      RaisingShrinks(env, from, steps - 1, v);
      if AliasesSame(env, before, v) {
        AliasesStay(env, before, v);
      } else {
        NewAnswer(env, before, v);
      }
    }
  }

  lemma Subset<T>(a: set<T>, b: set<T>)
    requires a <= b
    ensures |a| <= |b|
    ensures a != b ==> |a| < |b|
  {
    assert b == a + (b - a);
  }

  lemma AliasesStay(env: Environment, depth: nat, v: Value)
    requires AliasesSame(env, depth, v) && PartsSettled(env, depth, v)
    ensures AliasesSame(env, depth + 1, v)
  {
    forall name | name in env.aliases ensures Same(env, depth + 1, AliasA(name), v) {
      SettledByAliases(env, depth, env.aliases[name], v);
    }
  }

  lemma NewAnswer(env: Environment, depth: nat, v: Value)
    requires !AliasesSame(env, depth, v)
    ensures |Raising(env, depth + 1, v)| < |Raising(env, depth, v)|
  {
    forall name | name in env.aliases
      ensures Check(env, depth, AliasA(name), v).Raises? || Same(env, depth, AliasA(name), v)
    {
      MoreDepth(env, depth, AliasA(name), v);
    }
    var name :| name in env.aliases && !Same(env, depth, AliasA(name), v);
    assert name in Raising(env, depth, v) && name !in Raising(env, depth + 1, v);
    Subset(Raising(env, depth + 1, v), Raising(env, depth, v));
  }

  lemma {:induction false} AliasesStayForever(env: Environment, from: nat, depth: nat, v: Value)
    requires from <= depth && AliasesSame(env, from, v)
    requires forall d: nat | d >= from :: PartsSettled(env, d, v)
    ensures AliasesSame(env, depth, v)
    decreases depth
  {
    if from < depth {
      AliasesStayForever(env, from, depth - 1, v);
      AliasesStay(env, depth - 1, v);
    }
  }

  ghost function Enough(env: Environment, height: nat): nat {
    (height + 1) * |env.aliases|
  }

  /** From that depth on nothing changes. */
  lemma {:induction false} SettlesByThen(env: Environment, height: nat, v: Value, depth: nat)
    requires Nested(height, v) && depth >= Enough(env, height)
    ensures Settled(env, depth, v)
    decreases height, 1
  {
    var from := height * |env.aliases|;
    assert Enough(env, height) == from + |env.aliases|;
    forall d: nat | d >= from ensures PartsSettled(env, d, v) {
      PartsSettleByThen(env, height, v, d);
    }
    RaisingShrinks(env, from, |env.aliases|, v);
    if !AliasesSame(env, from + |env.aliases|, v) {
      NewAnswer(env, from + |env.aliases|, v);
    }
    AliasesStayForever(env, from + |env.aliases|, depth, v);
    forall a: Annotation ensures Same(env, depth, a, v) {
      SettledByAliases(env, depth, a, v);
    }
  }

  lemma {:induction false} PartsSettleByThen(env: Environment, height: nat, v: Value, depth: nat)
    requires Nested(height, v) && depth >= height * |env.aliases|
    ensures PartsSettled(env, depth, v)
    decreases height, 0
  {
    forall u | IsPart(u, v) ensures Settled(env, depth, u) {
      PartIsLower(height, u, v);
      SettlesByThen(env, height - 1, u, depth);
    }
    if v.Dict? {
      forall i | 0 <= i < |v.entries|
        ensures Settled(env, depth, Keys(v.entries)[i]) && Settled(env, depth, v.entries[i].1)
      {
        assert IsPart(v.entries[i].0, v) && IsPart(v.entries[i].1, v);
      }
    } else if v.Set? {
      forall i | 0 <= i < |v.items| ensures Settled(env, depth, v.items[i]) {
        assert IsPart(v.items[i], v);
      }
    } else if !IsCharacter(v) && AnyItems(v).Some? {
      forall i | 0 <= i < |AnyItems(v).value| ensures Settled(env, depth, AnyItems(v).value[i]) {
        assert IsPart(AnyItems(v).value[i], v);
      }
    }
  }

  ghost predicate IsPart(u: Value, v: Value) {
    match v
    case Dict(entries) => exists i :: 0 <= i < |entries| && (u == entries[i].0 || u == entries[i].1)
    case Set(items) => u in items
    case _ => !IsCharacter(v) && AnyItems(v).Some? && u in AnyItems(v).value
  }

  lemma PartIsLower(height: nat, u: Value, v: Value)
    requires Nested(height, v) && IsPart(u, v)
    ensures height > 0 && Nested(height - 1, u)
  {
  }

  // ----- The exact condition --------------------------------------------------------------------

  /** For every annotation and value: a check ends at some depth if and only if it ends with as many alias
      steps as there are aliases, for each level of nesting and one more. */
  lemma CheckEndsIff(env: Environment, height: nat, a: Annotation, v: Value)
    requires Nested(height, v)
    ensures (exists depth: nat :: !Check(env, depth, a, v).Raises?) <==> !Check(env, Enough(env, height), a, v).Raises?
  {
    forall depth: nat | !Check(env, depth, a, v).Raises? ensures !Check(env, Enough(env, height), a, v).Raises? {
      EndsByThen(env, height, a, v, depth);
    }
  }

  lemma EndsByThen(env: Environment, height: nat, a: Annotation, v: Value, depth: nat)
    requires Nested(height, v) && !Check(env, depth, a, v).Raises?
    ensures !Check(env, Enough(env, height), a, v).Raises?
  {
    if depth <= Enough(env, height) {
      MuchMoreDepth(env, depth, Enough(env, height), a, v);
    } else {
      SettledFromThen(env, height, a, v, depth);
    }
  }

  lemma {:induction false} SettledFromThen(env: Environment, height: nat, a: Annotation, v: Value, depth: nat)
    requires Nested(height, v) && depth >= Enough(env, height)
    ensures Check(env, depth, a, v) == Check(env, Enough(env, height), a, v)
    decreases depth
  {
    if depth > Enough(env, height) {
      SettledFromThen(env, height, a, v, depth - 1);
      SettlesByThen(env, height, v, depth - 1);
      assert Same(env, depth - 1, a, v);
    }
  }

  /** For one character of text: the check ends if and only if it ends before it has followed more aliases
      than there are. */
  lemma CharacterCheckEndsIff(env: Environment, a: Annotation, v: Value)
    requires IsCharacter(v)
    ensures (exists depth: nat :: !Check(env, depth, a, v).Raises?) <==> !Check(env, |env.aliases|, a, v).Raises?
  {
    assert Enough(env, 0) == |env.aliases|;
    CheckEndsIff(env, 0, a, v);
  }

  /** What validation returned is accepted with that depth, if and only if its check ends at all. */
  lemma ValidatedIsAcceptedIff(env: Environment, depth: nat, a: Annotation, v: Value, height: nat)
    requires ProperAliases(env) && Proper(a) && Validate(env, depth, a, v).Ok?
    requires Nested(height, Validate(env, depth, a, v).value)
    ensures var r := Validate(env, depth, a, v).value;
            Check(env, Enough(env, height), a, r) == Yes <==> exists d: nat :: !Check(env, d, a, r).Raises?
  {
    ValidatedIsChecked(env, depth, a, v);
    CheckEndsIff(env, height, a, Validate(env, depth, a, v).value);
  }
}
