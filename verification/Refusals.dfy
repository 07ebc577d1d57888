/**
Why validation refuses a value: the error it gives, said shape by shape and for the first part that fails.
*/
module Refusals {
  import opened Wrappers
  import opened Values
  import opened Annotations
  import opened Validating

  /** The first of the results that is an error is that one. */
  ghost predicate FirstError<T>(results: seq<Result<T, Error>>, e: Error) {
    exists i :: 0 <= i < |results| && results[i] == Err(e) && forall j | 0 <= j < i :: results[j].Ok?
  }

  lemma {:induction false} CollectErrorIff<T>(results: seq<Result<T, Error>>, e: Error)
    ensures Collect(results) == Err(e) <==> FirstError(results, e)
  {
    if results != [] {
      var n := |results| - 1;
      CollectErrorIff(results[..n], e);
      CollectIsAll(results[..n]);
      assert forall i | 0 <= i < n :: results[..n][i] == results[i];
      if Collect(results) == Err(e) && Collect(results[..n]).Ok? {
        assert results[n] == Err(e) && forall j | 0 <= j < n :: results[j].Ok?;
      }
      if FirstError(results, e) {
        var i :| 0 <= i < |results| && results[i] == Err(e) && forall j | 0 <= j < i :: results[j].Ok?;
        if i < n {
          assert results[..n][i] == Err(e);
        } else {
          assert Collect(results[..n]).Ok?;
        }
      }
      if FirstError(results[..n], e) {
        var i :| 0 <= i < n && results[..n][i] == Err(e) && forall j | 0 <= j < i :: results[..n][j].Ok?;
        assert results[i] == Err(e);
      }
    }
  }

  /** The shape of the value is one that the annotation takes in some form. */
  ghost predicate Fits(a: Annotation, v: Value) {
    match a
    case NullA => v.Null?
    case MissingA => v.Missing?
    case BoolA => v.Bool? || v.Int? || v.Str?
    case IntA => v.Int? || (v.Float? && v.fraction.Floor as real == v.fraction)
    case FloatA => v.Float? || v.Int?
    case StrA => v.Str?
    case BytesA => v.Bytes?
    case SpecialA(kind) => v.Str? || (v.Special? && v.kind == kind)
    case TupleA(_) => v.Tuple? || v.List?
    case SequenceA(_) => v.Tuple? || v.List?
    case SetA(_) => v.Tuple? || v.List? || v.Set? || v.Dict?
    case MappingA(_, _) => v.Dict?
    case TypedDictA(_) => v.Dict?
    case StateA(cls) => v.Dict? || (v.State? && v.cls == cls)
    case _ => true
  }

  /** A value of another shape is of the wrong type. */
  lemma MisfitIsWrongType(env: Environment, depth: nat, a: Annotation, v: Value)
    requires !Fits(a, v)
    ensures Validate(env, depth, a, v) == Err(WrongType)
  {
  }

  /** Scalars of the right shape fail only as texts that cannot be read. */
  lemma ScalarErrors(env: Environment, depth: nat, a: Annotation, v: Value)
    requires Fits(a, v)
    requires || a.AnyA? || a.NullA? || a.MissingA? || a.BoolA? || a.IntA? || a.FloatA? || a.StrA?
             || a.BytesA? || a.SpecialA?
    ensures Validate(env, depth, a, v).Err? <==>
            || (a.BoolA? && v.Str? && !Spells(v.text, "true") && !Spells(v.text, "false"))
            || (a.SpecialA? && v.Str? && env.parse(a.kind, v.text).None?)
    ensures Validate(env, depth, a, v).Err? ==> Validate(env, depth, a, v) == Err(WrongValue)
  {
    if a.BoolA? && v.Str? {
      LowerSpells(v.text, "true");
      LowerSpells(v.text, "false");
    }
  }

  /** A literal that is none of the values. */
  lemma LiteralErrors(env: Environment, depth: nat, a: Annotation, v: Value)
    requires a.LiteralA?
    ensures Validate(env, depth, a, v) ==
            if exists i :: 0 <= i < |a.values| && Same(a.values[i], v) then Ok(v) else Err(WrongValue)
  {
  }

  /** A tuple of another length; else the error of its first element that fails. */
  lemma TupleErrors(env: Environment, depth: nat, a: Annotation, v: Value, e: Error)
    requires a.TupleA? && Fits(a, v)
    ensures |v.items| != |a.elements| ==> Validate(env, depth, a, v) == Err(WrongValue)
    ensures |v.items| == |a.elements| ==>
              (Validate(env, depth, a, v) == Err(e) <==>
               FirstError(seq(|v.items|, i requires 0 <= i < |v.items| =>
                            Validate(env, depth, a.elements[i], v.items[i])), e))
  {
    if |v.items| == |a.elements| {
      CollectErrorIff(ByPosition(env, depth, a, v.items), e);
    }
  }

  ghost function EachOf(env: Environment, depth: nat, a: Annotation, items: seq<Value>): seq<Validated> {
    seq(|items|, i requires 0 <= i < |items| => Validate(env, depth, a, items[i]))
  }

  lemma SequenceErrors(env: Environment, depth: nat, a: Annotation, v: Value, e: Error)
    requires a.SequenceA? && Fits(a, v)
    ensures Validate(env, depth, a, v) == Err(e) <==> FirstError(EachOf(env, depth, a.element, v.items), e)
  {
    assert EachOf(env, depth, a.element, v.items) == ByElement(env, depth, a, v.items);
    CollectErrorIff(ByElement(env, depth, a, v.items), e);
  }

  /** The elements that a set is made from. */
  ghost function Iterated(v: Value): seq<Value>
    requires v.Tuple? || v.List? || v.Set? || v.Dict?
  {
    if v.Dict? then Keys(v.entries) else v.items
  }

  /** Besides the errors of elements, elements that cannot be hashed are of the wrong type. */
  lemma SetErrors(env: Environment, depth: nat, a: Annotation, v: Value, e: Error)
    requires a.SetA? && Fits(a, v)
    ensures var parts := EachOf(env, depth, a.element, Iterated(v));
            Validate(env, depth, a, v) == Err(e) <==>
            || FirstError(parts, e)
            || (e == WrongType && (forall i | 0 <= i < |parts| :: parts[i].Ok?)
                && exists i :: 0 <= i < |parts| && HoldsMutable(parts[i].value))
  {
    var parts := ByElement(env, depth, a, Iterated(v));
    assert EachOf(env, depth, a.element, Iterated(v)) == parts;
    CollectErrorIff(parts, e);
    CollectIsAll(parts);
    if Collect(parts).Ok? {
      forall i | 0 <= i < |parts| ensures Hashable(Collect(parts).value[i]) <==> !HoldsMutable(parts[i].value) {
        HashableIff(parts[i].value);
      }
    }
  }

  /** In each entry the key comes first. */
  ghost function EntryOf(env: Environment, depth: nat, a: Annotation, entry: (Value, Value)): Result<Value, Error>
    requires a.MappingA?
  {
    if Validate(env, depth, a.key, entry.0).Err? then Validate(env, depth, a.key, entry.0)
    else if Validate(env, depth, a.element, entry.1).Err? then Validate(env, depth, a.element, entry.1)
    else Validate(env, depth, a.key, entry.0)
  }

  ghost function EntriesOf(env: Environment, depth: nat, a: Annotation, entries: seq<(Value, Value)>)
    : seq<Result<Value, Error>>
    requires a.MappingA?
  {
    seq(|entries|, i requires 0 <= i < |entries| => EntryOf(env, depth, a, entries[i]))
  }

  lemma MappingErrors(env: Environment, depth: nat, a: Annotation, v: Value, e: Error)
    requires a.MappingA? && Fits(a, v)
    ensures var parts := EntriesOf(env, depth, a, v.entries);
            Validate(env, depth, a, v) == Err(e) <==>
            || FirstError(parts, e)
            || (e == WrongType && (forall i | 0 <= i < |parts| :: parts[i].Ok?)
                && exists i :: 0 <= i < |parts| && HoldsMutable(parts[i].value))
  {
    var parts, keys := ByPair(env, depth, a, v.entries), EntriesOf(env, depth, a, v.entries);
    CollectErrorIff(parts, e);
    CollectIsAll(parts);
    SameErrors(parts, keys, e);
    if Collect(parts).Ok? {
      forall i | 0 <= i < |parts| ensures Hashable(Collect(parts).value[i].0) <==> !HoldsMutable(keys[i].value) {
        assert parts[i] == Ok(Collect(parts).value[i]);
        HashableIff(keys[i].value);
      }
    }
  }

  lemma SameErrors<T, U>(some: seq<Result<T, Error>>, others: seq<Result<U, Error>>, e: Error)
    requires |some| == |others|
    requires forall i | 0 <= i < |some| ::
               (some[i].Ok? <==> others[i].Ok?) && (some[i].Err? ==> some[i].error == others[i].error)
    ensures FirstError(some, e) <==> FirstError(others, e)
  {
    if FirstError(some, e) {
      var i :| 0 <= i < |some| && some[i] == Err(e) && forall j | 0 <= j < i :: some[j].Ok?;
      assert others[i] == Err(e);
    }
    if FirstError(others, e) {
      var i :| 0 <= i < |others| && others[i] == Err(e) && forall j | 0 <= j < i :: others[j].Ok?;
      assert some[i] == Err(e);
    }
  }

  /** What a member gives: its value's result, the error that it is missing, or nothing to object to. */
  ghost function MemberOf(env: Environment, depth: nat, member: Member, entries: seq<(Value, Value)>): Validated {
    match Lookup(entries, Str(member.name))
    case None => if member.required then Err(MissingKey) else Ok(Missing)
    case Some(value) => Validate(env, depth, member.annotation, value)
  }

  ghost function MembersOf(env: Environment, depth: nat, a: Annotation, entries: seq<(Value, Value)>): seq<Validated>
    requires a.TypedDictA?
  {
    seq(|a.members|, i requires 0 <= i < |a.members| => MemberOf(env, depth, a.members[i], entries))
  }

  lemma TypedDictErrors(env: Environment, depth: nat, a: Annotation, v: Value, e: Error)
    requires a.TypedDictA? && Fits(a, v)
    ensures Validate(env, depth, a, v) == Err(e) <==> FirstError(MembersOf(env, depth, a, v.entries), e)
  {
    TypedDictFailsIff(env, depth, a, v, e);
    MemberErrors(env, depth, a, v.entries, e);
  }

  lemma TypedDictFailsIff(env: Environment, depth: nat, a: Annotation, v: Value, e: Error)
    requires a.TypedDictA? && v.Dict?
    ensures Validate(env, depth, a, v) == Err(e) <==> Collect(ByMember(env, depth, a, v.entries)) == Err(e)
  {
    if Collect(ByMember(env, depth, a, v.entries)).Ok? {
      var values := PairsAreValues(env, depth, a, v.entries);
      KeysAreText(Names(a.members), values);
    }
  }

  lemma MemberErrors(env: Environment, depth: nat, a: Annotation, entries: seq<(Value, Value)>, e: Error)
    requires a.TypedDictA?
    ensures Collect(ByMember(env, depth, a, entries)) == Err(e)
            <==> FirstError(MembersOf(env, depth, a, entries), e)
  {
    CollectErrorIff(ByMember(env, depth, a, entries), e);
    SameErrors(ByMember(env, depth, a, entries), MembersOf(env, depth, a, entries), e);
  }

  ghost predicate Satisfies(attempt: Validated, verifier: Value -> bool) {
    attempt.Ok? && verifier(attempt.value)
  }

  /** A union fails with an error of its own, when each alternative fails or gives what the verifier refuses. */
  lemma UnionErrors(env: Environment, depth: nat, a: Annotation, v: Value)
    requires a.UnionA?
    ensures Validate(env, depth, a, v).Err? <==>
            forall i | 0 <= i < |a.alternatives| :: !Satisfies(Validate(env, depth, a.alternatives[i], v), a.verifier)
    ensures Validate(env, depth, a, v).Err? ==> Validate(env, depth, a, v) == Err(WrongValue)
  {
    FirstOkIsFirst(ByAlternative(env, depth, a, v));
    NoneIsWrongValue(ByAlternative(env, depth, a, v));
    assert forall i | 0 <= i < |a.alternatives| ::
        ByAlternative(env, depth, a, v)[i] == Verify(Validate(env, depth, a.alternatives[i], v), a.verifier);
  }

  lemma {:induction false} NoneIsWrongValue(results: seq<Validated>)
    ensures FirstOk(results).Err? ==> FirstOk(results) == Err(WrongValue)
  {
    if results != [] && results[0].Err? {
      NoneIsWrongValue(results[1..]);
    }
  }

  /** Named types fail when they are unknown or nested too deep, with mappings that have other keys, or as their
      targets and fields do. */
  lemma NamedErrors(env: Environment, depth: nat, a: Annotation, v: Value, e: Error)
    requires (a.AliasA? || (a.StateA? && v.Dict?))
    ensures depth == 0 ==> Validate(env, depth, a, v) == Err(TooDeep)
    ensures depth > 0 && a.AliasA? ==>
              Validate(env, depth, a, v) ==
              if a.name in env.aliases then Validate(env, depth - 1, env.aliases[a.name], v) else Err(Unresolved)
    ensures depth > 0 && a.StateA? && a.cls !in env.classes ==> Validate(env, depth, a, v) == Err(Unresolved)
    ensures depth > 0 && a.StateA? && a.cls in env.classes && !KeysAllowed(env.classes[a.cls], v.entries) ==>
              Validate(env, depth, a, v) == Err(WrongType)
    ensures depth > 0 && a.StateA? && a.cls in env.classes && KeysAllowed(env.classes[a.cls], v.entries) ==>
              Validate(env, depth, a, v) == Construct(env, depth - 1, a.cls, v.entries)
  {
    if a.StateA? && a.cls in env.classes {
      AcceptsIff(env.classes[a.cls], v.entries);
    }
  }

  /** What each field gives for what it is given. */
  ghost predicate FieldGives(env: Environment, depth: nat, field: Field, entries: seq<(Value, Value)>, r: Validated) {
    exists x :: Given(field, entries, x) && r == Validate(env, depth, field.annotation, x)
  }

  lemma ConstructionErrors(env: Environment, depth: nat, cls: string, entries: seq<(Value, Value)>, e: Error)
    requires cls in env.classes
    ensures Construct(env, depth, cls, entries) == Err(e) <==>
            exists i :: 0 <= i < |env.classes[cls]|
                        && FieldGives(env, depth, env.classes[cls][i], entries, Err(e))
                        && forall j | 0 <= j < i ::
                             exists y :: FieldGives(env, depth, env.classes[cls][j], entries, Ok(y))
  {
    var fields := env.classes[cls];
    var parts := ByField(env, depth, fields, entries);
    CollectErrorIff(parts, e);
    forall i, r | 0 <= i < |fields| ensures FieldGives(env, depth, fields[i], entries, r) <==> parts[i] == r {
      assert Given(fields[i], entries, Source(fields[i], entries));
    }
    forall j | 0 <= j < |fields|
      ensures parts[j].Ok? <==> exists y :: FieldGives(env, depth, fields[j], entries, Ok(y))
    {
      if parts[j].Ok? {
        assert FieldGives(env, depth, fields[j], entries, Ok(parts[j].value));
      }
    }
  }

  /** Verifiers and user functions. */
  lemma FunctionErrors(env: Environment, depth: nat, a: Annotation, v: Value)
    requires a.VerifiedA? || a.ValidatedA?
    ensures a.VerifiedA? ==>
              Validate(env, depth, a, v) ==
              if Validate(env, depth, a.base, v).Ok? && !a.verifier(Validate(env, depth, a.base, v).value)
              then Err(Rejected)
              else Validate(env, depth, a.base, v)
    ensures a.ValidatedA? && a.validator(v).Err? ==> Validate(env, depth, a, v) == Err(a.validator(v).error)
    ensures a.ValidatedA? && a.validator(v).Ok? ==>
              Validate(env, depth, a, v) == Validate(env, depth, a.base, a.validator(v).value)
  {
  }
}
