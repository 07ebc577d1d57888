/**
What validation makes of a value, as a relation between the value and the result: part by part, without the
functions that combine the results for the parts.
*/
module Validating {
  import opened Wrappers
  import opened Values
  import opened Annotations

  /** The letters are those of the word in lower or upper case. */
  ghost predicate Spells(text: string, word: string) {
    && |text| == |word|
    && forall i | 0 <= i < |text| ::
         text[i] == word[i] || ('A' <= text[i] <= 'Z' && text[i] as int - 'A' as int == word[i] as int - 'a' as int)
  }

  /** Numbers other than 0 are true, the words are taken in any case. */
  ghost predicate BecomesBool(v: Value, r: Value) {
    || (v.Bool? && r == v)
    || (v.Int? && r == Bool(v.number != 0))
    || (v.Str? && Spells(v.text, "true") && r == Bool(true))
    || (v.Str? && Spells(v.text, "false") && r == Bool(false))
  }

  /** The values are those of the entries, in the order of the names, under the names. */
  ghost predicate Selected(names: seq<string>, values: seq<Option<Value>>, entries: seq<(Value, Value)>)
    requires |names| == |values|
    decreases |names|
  {
    if names == [] then entries == []
    else if values[0].None? then Selected(names[1..], values[1..], entries)
    else
      && entries != [] && entries[0] == (Str(names[0]), values[0].value)
      && Selected(names[1..], values[1..], entries[1..])
  }

  ghost predicate KeyAllowed(fields: seq<Field>, key: Value) {
    exists f :: 0 <= f < |fields| && IsNameOf(fields[f], key)
  }

  ghost predicate IsNameOf(field: Field, key: Value) {
    key.Str? && (key.text == field.name || field.alias == Some(key.text))
  }

  /** Only names and aliases of the fields are keys, and never both of one field. */
  ghost predicate KeysAllowed(fields: seq<Field>, entries: seq<(Value, Value)>) {
    && (forall e | 0 <= e < |entries| :: KeyAllowed(fields, entries[e].0))
    && (forall f | 0 <= f < |fields| && fields[f].alias.Some? ::
          Lookup(entries, Str(fields[f].alias.value)).None? || Lookup(entries, Str(fields[f].name)).None?)
  }

  /** What a field is given: the argument under its alias, else that under its name, else its default. */
  ghost predicate Given(field: Field, entries: seq<(Value, Value)>, x: Value) {
    if field.alias.Some? && Lookup(entries, Str(field.alias.value)).Some?
    then Lookup(entries, Str(field.alias.value)) == Some(x)
    else if Lookup(entries, Str(field.name)).Some? then Lookup(entries, Str(field.name)) == Some(x)
    else x == field.default
  }

  /** Validating the value gives the result. */
  ghost predicate Becomes(env: Environment, depth: nat, a: Annotation, v: Value, r: Value)
    decreases depth, a, 1
  {
    match a
    case AnyA => r == v
    case NullA => v == Null && r == v
    case MissingA => v == Missing && r == v
    case BoolA => BecomesBool(v, r)
    case IntA => (v.Int? && r == v) || (v.Float? && r.Int? && r.number as real == v.fraction)
    case FloatA => (v.Float? && r == v) || (v.Int? && r == Float(v.number as real))
    case StrA => v.Str? && r == v
    case BytesA => v.Bytes? && r == v
    case SpecialA(kind) =>
      || (v.Special? && v.kind == kind && r == v)
      || (v.Str? && env.parse(kind, v.text).Some? && r == Special(kind, env.parse(kind, v.text).value))
    case LiteralA(values) => r == v && exists i :: 0 <= i < |values| && Same(values[i], v)
    case TupleA(elements) =>
      && (v.Tuple? || v.List?) && r.Tuple? && |v.items| == |elements| == |r.items|
      && forall i | 0 <= i < |elements| :: Becomes(env, depth, elements[i], v.items[i], r.items[i])
    case SequenceA(_) => (v.Tuple? || v.List?) && r.Tuple? && EachBecomes(env, depth, a, v.items, r.items)
    case SetA(_) =>
      && r.Set?
      && exists parts: seq<Value> ::
           && (forall i | 0 <= i < |parts| :: Hashable(parts[i]))
           && r.items == Dedup(parts)
           && (if v.Tuple? || v.List? || v.Set? then EachBecomes(env, depth, a, v.items, parts)
               else v.Dict? && EachBecomes(env, depth, a, Keys(v.entries), parts))
    case MappingA(_, _) =>
      && v.Dict? && r.Dict?
      && exists parts: seq<(Value, Value)> :: r.entries == DictOf(parts) && PairsBecome(env, depth, a, v.entries, parts)
    case TypedDictA(members) =>
      && v.Dict? && r.Dict?
      && exists values: seq<Option<Value>>, entries: seq<(Value, Value)> ::
           && MembersBecome(env, depth, a, v.entries, values)
           && Selected(Names(members), values, entries) && r.entries == DictOf(entries)
    case UnionA(alternatives, verifier) =>
      exists i :: 0 <= i < |alternatives| && ChosenBecomes(env, depth, a, i, v, r)
    case StateA(cls) =>
      || (v.State? && v.cls == cls && r == v)
      || (v.Dict? && depth > 0 && cls in env.classes && KeysAllowed(env.classes[cls], v.entries)
          && FieldsBecome(env, depth - 1, cls, v.entries, r))
    case AliasA(name) => depth > 0 && name in env.aliases && Becomes(env, depth - 1, env.aliases[name], v, r)
    case VerifiedA(base, verifier) => Becomes(env, depth, base, v, r) && verifier(r)
    case ValidatedA(base, validator) => validator(v).Ok? && Becomes(env, depth, base, validator(v).value, r)
  }

  ghost predicate EachBecomes(env: Environment, depth: nat, a: Annotation, items: seq<Value>, parts: seq<Value>)
    requires a.SequenceA? || a.SetA?
    decreases depth, a, 0
  {
    |parts| == |items| && forall i | 0 <= i < |items| :: Becomes(env, depth, a.element, items[i], parts[i])
  }

  ghost predicate PairsBecome(env: Environment, depth: nat, a: Annotation, entries: seq<(Value, Value)>,
                              parts: seq<(Value, Value)>)
    requires a.MappingA?
    decreases depth, a, 0
  {
    && |parts| == |entries|
    && forall i | 0 <= i < |entries| ::
         && Hashable(parts[i].0)
         && Becomes(env, depth, a.key, entries[i].0, parts[i].0)
         && Becomes(env, depth, a.element, entries[i].1, parts[i].1)
  }

  ghost predicate MembersBecome(env: Environment, depth: nat, a: Annotation, entries: seq<(Value, Value)>,
                                values: seq<Option<Value>>)
    requires a.TypedDictA?
    ensures MembersBecome(env, depth, a, entries, values) ==> |values| == |Names(a.members)|
    decreases depth, a, 0
  {
    && |values| == |a.members|
    && forall i | 0 <= i < |a.members| ::
         (match Lookup(entries, Str(a.members[i].name))
          case None => !a.members[i].required && values[i].None?
          case Some(value) =>
            values[i].Some? && Becomes(env, depth, a.members[i].annotation, value, values[i].value))
  }

  /** The alternative gives the result, its verifier takes that, and no earlier alternative does so for any. */
  ghost predicate ChosenBecomes(env: Environment, depth: nat, a: Annotation, i: nat, v: Value, r: Value)
    requires a.UnionA? && i < |a.alternatives|
    decreases depth, a, 0
  {
    && Becomes(env, depth, a.alternatives[i], v, r) && a.verifier(r)
    && forall j | 0 <= j < i :: Refused(env, depth, a.alternatives[j], a.verifier, v)
  }

  /** Whatever the value becomes, the verifier does not take it. */
  ghost predicate Refused(env: Environment, depth: nat, a: Annotation, verifier: Value -> bool, v: Value)
    decreases depth, a, 2
  {
    forall q | Becomes(env, depth, a, v, q) :: !verifier(q)
  }

  /** Each field holds what its annotation makes of what it is given. */
  ghost predicate FieldsBecome(env: Environment, depth: nat, cls: string, entries: seq<(Value, Value)>, r: Value)
    requires cls in env.classes
    decreases depth + 1, StateA(cls), 0
  {
    && r.State? && r.cls == cls && |r.fields| == |env.classes[cls]|
    && forall i | 0 <= i < |r.fields| :: FieldBecomes(env, depth, cls, i, entries, r.fields[i])
  }

  ghost predicate FieldBecomes(env: Environment, depth: nat, cls: string, i: nat, entries: seq<(Value, Value)>,
                               y: Value)
    requires cls in env.classes && i < |env.classes[cls]|
    decreases depth + 1, StateA(cls), -1
  {
    var field := env.classes[cls][i];
    exists x :: Given(field, entries, x) && Becomes(env, depth, field.annotation, x, y)
  }

  // ----- The two agree --------------------------------------------------------------------------

  ghost predicate Agrees(env: Environment, depth: nat, a: Annotation, v: Value, r: Value) {
    Validate(env, depth, a, v) == Ok(r) <==> Becomes(env, depth, a, v, r)
  }

  lemma LowerSpells(text: string, word: string)
    requires forall i | 0 <= i < |word| :: 'a' <= word[i] <= 'z'
    ensures LowerCase(text) == word <==> Spells(text, word)
  {
  }

  lemma BoolAgrees(env: Environment, depth: nat, v: Value, r: Value)
    ensures Agrees(env, depth, BoolA, v, r)
  {
    if v.Str? {
      LowerSpells(v.text, "true");
      LowerSpells(v.text, "false");
    }
  }

  lemma KindAgrees(env: Environment, depth: nat, a: Annotation, v: Value, r: Value)
    requires a.AnyA? || a.NullA? || a.MissingA? || a.IntA? || a.FloatA? || a.StrA? || a.BytesA?
    ensures Agrees(env, depth, a, v, r)
  {
    if a.IntA? && v.Float? && r.Int? {
      assert (r.number as real).Floor == r.number;
    }
  }

  lemma ClassAgrees(env: Environment, depth: nat, a: Annotation, v: Value, r: Value)
    requires a.SpecialA? || a.LiteralA?
    ensures Agrees(env, depth, a, v, r)
  {
  }

  lemma {:induction false} TupleAgrees(env: Environment, depth: nat, a: Annotation, v: Value, r: Value)
    requires a.TupleA?
    ensures Agrees(env, depth, a, v, r)
    decreases depth, a, 2
  {
    if SequenceItems(v).Some? && |v.items| == |a.elements| && r.Tuple? && |r.items| == |v.items| {
      forall i | 0 <= i < |v.items| ensures Agrees(env, depth, a.elements[i], v.items[i], r.items[i]) {
        ValidateIff(env, depth, a.elements[i], v.items[i], r.items[i]);
      }
      CollectIff(ByPosition(env, depth, a, v.items), r.items);
    }
    if Validate(env, depth, a, v).Ok? {
      CollectIsAll(ByPosition(env, depth, a, v.items));
    }
  }

  lemma {:induction false} ElementsAgree(env: Environment, depth: nat, a: Annotation, items: seq<Value>,
                                         parts: seq<Value>)
    requires a.SequenceA? || a.SetA?
    ensures Collect(ByElement(env, depth, a, items)) == Ok(parts) <==> EachBecomes(env, depth, a, items, parts)
    decreases depth, a, 1
  {
    if |parts| == |items| {
      forall i | 0 <= i < |items| ensures Agrees(env, depth, a.element, items[i], parts[i]) {
        ValidateIff(env, depth, a.element, items[i], parts[i]);
      }
      CollectIff(ByElement(env, depth, a, items), parts);
    }
    CollectIsAll(ByElement(env, depth, a, items));
  }

  lemma {:induction false} SequenceAgrees(env: Environment, depth: nat, a: Annotation, v: Value, r: Value)
    requires a.SequenceA?
    ensures Agrees(env, depth, a, v, r)
    decreases depth, a, 2
  {
    if SequenceItems(v).Some? && r.Tuple? {
      ElementsAgree(env, depth, a, v.items, r.items);
    }
  }

  lemma {:induction false} SetAgrees(env: Environment, depth: nat, a: Annotation, v: Value, r: Value)
    requires a.SetA?
    ensures Agrees(env, depth, a, v, r)
    decreases depth, a, 2
  {
    if IterableItems(v).Some? {
      var items := IterableItems(v).value;
      var collected := Collect(ByElement(env, depth, a, items));
      forall parts ensures collected == Ok(parts) <==> EachBecomes(env, depth, a, items, parts) {
        ElementsAgree(env, depth, a, items, parts);
      }
      SetByParts(env, depth, a, v, r, items);
    } else {
      NoSet(env, depth, a, v, r);
    }
  }

  lemma SetByParts(env: Environment, depth: nat, a: Annotation, v: Value, r: Value, items: seq<Value>)
    requires a.SetA? && IterableItems(v) == Some(items)
    requires forall parts ::
               Collect(ByElement(env, depth, a, items)) == Ok(parts) <==> EachBecomes(env, depth, a, items, parts)
    ensures Agrees(env, depth, a, v, r)
  {
    var collected := Collect(ByElement(env, depth, a, items));
    if collected.Ok? {
      assert EachBecomes(env, depth, a, items, collected.value);
    }
  }

  lemma NoSet(env: Environment, depth: nat, a: Annotation, v: Value, r: Value)
    requires a.SetA? && IterableItems(v).None?
    ensures Validate(env, depth, a, v).Err? && !Becomes(env, depth, a, v, r)
  {
  }

  lemma {:induction false} PairsAgree(env: Environment, depth: nat, a: Annotation, entries: seq<(Value, Value)>,
                                      parts: seq<(Value, Value)>)
    requires a.MappingA?
    ensures Collect(ByPair(env, depth, a, entries)) == Ok(parts)
            && (forall i | 0 <= i < |parts| :: Hashable(parts[i].0))
            <==> PairsBecome(env, depth, a, entries, parts)
    decreases depth, a, 1
  {
    if |parts| == |entries| {
      forall i | 0 <= i < |entries|
        ensures Agrees(env, depth, a.key, entries[i].0, parts[i].0)
        ensures Agrees(env, depth, a.element, entries[i].1, parts[i].1)
      {
        ValidateIff(env, depth, a.key, entries[i].0, parts[i].0);
        ValidateIff(env, depth, a.element, entries[i].1, parts[i].1);
      }
      CollectIff(ByPair(env, depth, a, entries), parts);
    }
    CollectIsAll(ByPair(env, depth, a, entries));
  }

  lemma {:induction false} MappingAgrees(env: Environment, depth: nat, a: Annotation, v: Value, r: Value)
    requires a.MappingA?
    ensures Agrees(env, depth, a, v, r)
    decreases depth, a, 2
  {
    if v.Dict? {
      var collected := Collect(ByPair(env, depth, a, v.entries));
      if collected.Ok? {
        PairsAgree(env, depth, a, v.entries, collected.value);
      }
      forall parts | PairsBecome(env, depth, a, v.entries, parts) ensures collected == Ok(parts) {
        PairsAgree(env, depth, a, v.entries, parts);
      }
    }
  }

  lemma {:induction false} FirstOkIff(results: seq<Validated>, r: Value)
    ensures FirstOk(results) == Ok(r) <==>
            exists i :: 0 <= i < |results| && results[i] == Ok(r) && forall j | 0 <= j < i :: results[j].Err?
  {
    FirstOkIsFirst(results);
  }

  lemma {:induction false} AlternativeAgrees(env: Environment, depth: nat, a: Annotation, i: nat, v: Value, r: Value)
    requires a.UnionA? && i < |a.alternatives|
    ensures var results := ByAlternative(env, depth, a, v);
            ChosenBecomes(env, depth, a, i, v, r) <==>
            results[i] == Ok(r) && forall j | 0 <= j < i :: results[j].Err?
    decreases depth, a, 1
  {
    var results := ByAlternative(env, depth, a, v);
    ValidateIff(env, depth, a.alternatives[i], v, r);
    forall j | 0 <= j < i ensures results[j].Err? <==> Refused(env, depth, a.alternatives[j], a.verifier, v) {
      ghost var becomes := q => Becomes(env, depth, a.alternatives[j], v, q);
      forall q ensures becomes(q) <==> Validate(env, depth, a.alternatives[j], v) == Ok(q) {
        ValidateIff(env, depth, a.alternatives[j], v, q);
      }
      RefusedIff(Validate(env, depth, a.alternatives[j], v), becomes, a.verifier);
    }
  }

  lemma RefusedIff(attempt: Validated, becomes: Value -> bool, verifier: Value -> bool)
    requires forall q :: becomes(q) <==> attempt == Ok(q)
    ensures Verify(attempt, verifier).Err? <==> forall q | becomes(q) :: !verifier(q)
  {
  }

  lemma {:induction false} UnionAgrees(env: Environment, depth: nat, a: Annotation, v: Value, r: Value)
    requires a.UnionA?
    ensures Agrees(env, depth, a, v, r)
    decreases depth, a, 2
  {
    FirstOkIff(ByAlternative(env, depth, a, v), r);
    forall i | 0 <= i < |a.alternatives|
      ensures ChosenBecomes(env, depth, a, i, v, r) <==>
              ByAlternative(env, depth, a, v)[i] == Ok(r)
              && forall j | 0 <= j < i :: ByAlternative(env, depth, a, v)[j].Err?
    {
      AlternativeAgrees(env, depth, a, i, v, r);
    }
  }

  lemma {:induction false} FieldsAgree(env: Environment, depth: nat, cls: string, entries: seq<(Value, Value)>,
                                       r: Value)
    requires cls in env.classes
    ensures Construct(env, depth, cls, entries) == Ok(r) <==> FieldsBecome(env, depth, cls, entries, r)
    decreases depth + 1, StateA(cls), 1
  {
    var fields := env.classes[cls];
    var parts := ByField(env, depth, fields, entries);
    CollectIsAll(parts);
    assert Construct(env, depth, cls, entries).Ok? <==> Collect(parts).Ok?;
    if r.State? && |r.fields| == |fields| {
      forall i | 0 <= i < |fields|
        ensures parts[i] == Ok(r.fields[i]) <==> FieldBecomes(env, depth, cls, i, entries, r.fields[i])
      {
        FieldAgrees(env, depth, cls, i, entries, r.fields[i]);
      }
      CollectIff(parts, r.fields);
    }
  }

  lemma {:induction false} FieldAgrees(env: Environment, depth: nat, cls: string, i: nat, entries: seq<(Value, Value)>,
                                       y: Value)
    requires cls in env.classes && i < |env.classes[cls]|
    ensures ByField(env, depth, env.classes[cls], entries)[i] == Ok(y) <==> FieldBecomes(env, depth, cls, i, entries, y)
    decreases depth + 1, StateA(cls), 0
  {
    var field := env.classes[cls][i];
    var source := Source(field, entries);
    ValidateIff(env, depth, field.annotation, source, y);
    assert Given(field, entries, source);
    assert ByField(env, depth, env.classes[cls], entries)[i] == Validate(env, depth, field.annotation, source);
  }

  lemma AcceptsIff(fields: seq<Field>, entries: seq<(Value, Value)>)
    ensures Accepts(fields, entries) <==> KeysAllowed(fields, entries)
  {
    forall e | 0 <= e < |entries|
      ensures KeyAllowed(fields, entries[e].0) <==> exists f :: 0 <= f < |fields| && NamesField(fields[f], entries[e].0)
    {
      KeyIsNamed(fields, entries[e].0);
    }
    assert (forall f | 0 <= f < |fields| && fields[f].alias.Some? ::
              !(Lookup(entries, Str(fields[f].alias.value)).Some? && Lookup(entries, Str(fields[f].name)).Some?)) <==>
           (forall f | 0 <= f < |fields| && fields[f].alias.Some? ::
              Lookup(entries, Str(fields[f].alias.value)).None? || Lookup(entries, Str(fields[f].name)).None?);
  }

  lemma KeyIsNamed(fields: seq<Field>, key: Value)
    ensures KeyAllowed(fields, key) <==> exists f :: 0 <= f < |fields| && NamesField(fields[f], key)
  {
    forall f | 0 <= f < |fields| ensures NamesField(fields[f], key) <==> IsNameOf(fields[f], key) {
    }
  }

  lemma {:induction false} StateAgrees(env: Environment, depth: nat, a: Annotation, v: Value, r: Value)
    requires a.StateA?
    ensures Agrees(env, depth, a, v, r)
    decreases depth, a, 2
  {
    if v.Dict? && depth > 0 && a.cls in env.classes {
      FieldsAgree(env, depth - 1, a.cls, v.entries, r);
      MappingIsState(env, depth, a, v, r);
    } else {
      OtherState(env, depth, a, v, r);
    }
  }

  lemma MappingIsState(env: Environment, depth: nat, a: Annotation, v: Value, r: Value)
    requires a.StateA? && v.Dict? && depth > 0 && a.cls in env.classes
    requires Construct(env, depth - 1, a.cls, v.entries) == Ok(r) <==> FieldsBecome(env, depth - 1, a.cls, v.entries, r)
    ensures Agrees(env, depth, a, v, r)
  {
    AcceptsIff(env.classes[a.cls], v.entries);
  }

  lemma OtherState(env: Environment, depth: nat, a: Annotation, v: Value, r: Value)
    requires a.StateA? && !(v.Dict? && depth > 0 && a.cls in env.classes)
    ensures Agrees(env, depth, a, v, r)
  {
  }

  // ----- Typed dictionaries ---------------------------------------------------------------------

  /** The pairs for the members. */
  ghost function Paired(names: seq<string>, values: seq<Option<Value>>): seq<Option<(Value, Value)>>
    requires |names| == |values|
  {
    seq(|names|, i requires 0 <= i < |names| =>
      if values[i].Some? then Some((Str(names[i]), values[i].value)) else None)
  }

  lemma {:induction false} PresentFromFront(pairs: seq<Option<(Value, Value)>>)
    requires pairs != []
    ensures Present(pairs) == (if pairs[0].Some? then [pairs[0].value] else []) + Present(pairs[1..])
    decreases |pairs|
  {
    var n := |pairs| - 1;
    if n > 0 {
      PresentFromFront(pairs[..n]);
      assert pairs[..n][1..] == pairs[1..][..n - 1];
    }
  }

  lemma {:induction false} SelectedIff(names: seq<string>, values: seq<Option<Value>>, entries: seq<(Value, Value)>)
    requires |names| == |values|
    ensures Selected(names, values, entries) <==> entries == Present(Paired(names, values))
    decreases |names|
  {
    if names != [] {
      var pairs := Paired(names, values);
      PresentFromFront(pairs);
      assert pairs[1..] == Paired(names[1..], values[1..]);
      if values[0].None? {
        SelectedIff(names[1..], values[1..], entries);
        assert [] + Present(pairs[1..]) == Present(pairs[1..]);
      } else if entries != [] {
        SelectedIff(names[1..], values[1..], entries[1..]);
        assert entries == [entries[0]] + entries[1..];
      }
    }
  }

  lemma {:induction false} MembersAgree(env: Environment, depth: nat, a: Annotation, entries: seq<(Value, Value)>,
                                        values: seq<Option<Value>>)
    requires a.TypedDictA? && |values| == |a.members|
    ensures Collect(ByMember(env, depth, a, entries)) == Ok(Paired(Names(a.members), values)) <==>
            MembersBecome(env, depth, a, entries, values)
    decreases depth, a, 1
  {
    var parts, pairs := ByMember(env, depth, a, entries), Paired(Names(a.members), values);
    forall i | 0 <= i < |a.members|
      ensures parts[i] == Ok(pairs[i]) <==>
              match Lookup(entries, Str(a.members[i].name))
              case None => !a.members[i].required && values[i].None?
              case Some(value) =>
                values[i].Some? && Becomes(env, depth, a.members[i].annotation, value, values[i].value)
    {
      var found := Lookup(entries, Str(a.members[i].name));
      if found.Some? && values[i].Some? {
        ValidateIff(env, depth, a.members[i].annotation, found.value, values[i].value);
      }
    }
    CollectIff(parts, pairs);
  }

  /** The values in the pairs for the members. */
  lemma PairsAreValues(env: Environment, depth: nat, a: Annotation, entries: seq<(Value, Value)>)
      returns (values: seq<Option<Value>>)
    requires a.TypedDictA? && Collect(ByMember(env, depth, a, entries)).Ok?
    ensures |values| == |a.members|
    ensures Collect(ByMember(env, depth, a, entries)) == Ok(Paired(Names(a.members), values))
  {
    var parts := ByMember(env, depth, a, entries);
    CollectIsAll(parts);
    var pairs := Collect(parts).value;
    values := seq(|pairs|, i requires 0 <= i < |pairs| => if pairs[i].Some? then Some(pairs[i].value.1) else None);
    forall i | 0 <= i < |pairs| ensures pairs[i] == Paired(Names(a.members), values)[i] {
      assert parts[i] == Ok(pairs[i]);
    }
    assert pairs == Paired(Names(a.members), values);
  }

  lemma KeysAreText(names: seq<string>, values: seq<Option<Value>>)
    requires |names| == |values|
    ensures forall e <- Present(Paired(names, values)) :: Hashable(e.0)
  {
    PresentIsSome(Paired(names, values));
  }

  lemma {:induction false} TypedDictAgrees(env: Environment, depth: nat, a: Annotation, v: Value, r: Value)
    requires a.TypedDictA?
    ensures Agrees(env, depth, a, v, r)
    decreases depth, a, 2
  {
    if v.Dict? {
      var names := Names(a.members);
      if Collect(ByMember(env, depth, a, v.entries)).Ok? {
        var values := PairsAreValues(env, depth, a, v.entries);
        MembersAgree(env, depth, a, v.entries, values);
        SelectedIff(names, values, Present(Paired(names, values)));
        KeysAreText(names, values);
      }
      forall values, entries | MembersBecome(env, depth, a, v.entries, values) && Selected(names, values, entries)
        ensures Validate(env, depth, a, v) == Ok(Dict(DictOf(entries)))
      {
        MembersAgree(env, depth, a, v.entries, values);
        SelectedIff(names, values, entries);
        KeysAreText(names, values);
      }
    }
  }

  // ----- For every annotation -------------------------------------------------------------------

  /** Validation gives exactly the results that the relation describes. */
  lemma {:induction false} ValidateIff(env: Environment, depth: nat, a: Annotation, v: Value, r: Value)
    ensures Agrees(env, depth, a, v, r)
    decreases depth, a, 3
  {
    match a
    case BoolA => BoolAgrees(env, depth, v, r);
    case SpecialA(_) => ClassAgrees(env, depth, a, v, r);
    case LiteralA(_) => ClassAgrees(env, depth, a, v, r);
    case TupleA(_) => TupleAgrees(env, depth, a, v, r);
    case SequenceA(_) => SequenceAgrees(env, depth, a, v, r);
    case SetA(_) => SetAgrees(env, depth, a, v, r);
    case MappingA(_, _) => MappingAgrees(env, depth, a, v, r);
    case TypedDictA(_) => TypedDictAgrees(env, depth, a, v, r);
    case UnionA(_, _) => UnionAgrees(env, depth, a, v, r);
    case StateA(_) => StateAgrees(env, depth, a, v, r);
    case AliasA(_) => AliasAgrees(env, depth, a, v, r);
    case VerifiedA(_, _) => VerifiedAgrees(env, depth, a, v, r);
    case ValidatedA(_, _) => ValidatedAgrees(env, depth, a, v, r);
    case _ => KindAgrees(env, depth, a, v, r);
  }

  lemma {:induction false} AliasAgrees(env: Environment, depth: nat, a: Annotation, v: Value, r: Value)
    requires a.AliasA?
    ensures Agrees(env, depth, a, v, r)
    decreases depth, a, 2
  {
    if depth > 0 && a.name in env.aliases {
      TargetAgrees(env, depth, a, v, r);
      AliasMeansTarget(env, depth, a, v, r);
    } else {
      AliasFails(env, depth, a, v, r);
    }
  }

  lemma {:induction false} TargetAgrees(env: Environment, depth: nat, a: Annotation, v: Value, r: Value)
    requires a.AliasA? && depth > 0 && a.name in env.aliases
    ensures Validate(env, depth - 1, env.aliases[a.name], v) == Ok(r) <==>
            Becomes(env, depth - 1, env.aliases[a.name], v, r)
    decreases depth, a, 1
  {
    ValidateIff(env, depth - 1, env.aliases[a.name], v, r);
  }

  lemma AliasFails(env: Environment, depth: nat, a: Annotation, v: Value, r: Value)
    requires a.AliasA? && (depth == 0 || a.name !in env.aliases)
    ensures Validate(env, depth, a, v).Err? && !Becomes(env, depth, a, v, r)
  {
  }

  lemma AliasMeansTarget(env: Environment, depth: nat, a: Annotation, v: Value, r: Value)
    requires a.AliasA? && depth > 0 && a.name in env.aliases
    ensures Becomes(env, depth, a, v, r) <==> Becomes(env, depth - 1, env.aliases[a.name], v, r)
    ensures Validate(env, depth, a, v) == Validate(env, depth - 1, env.aliases[a.name], v)
  {
  }

  lemma {:induction false} VerifiedAgrees(env: Environment, depth: nat, a: Annotation, v: Value, r: Value)
    requires a.VerifiedA?
    ensures Agrees(env, depth, a, v, r)
    decreases depth, a, 2
  {
    ValidateIff(env, depth, a.base, v, r);
  }

  lemma {:induction false} ValidatedAgrees(env: Environment, depth: nat, a: Annotation, v: Value, r: Value)
    requires a.ValidatedA?
    ensures Agrees(env, depth, a, v, r)
    decreases depth, a, 2
  {
    if a.validator(v).Ok? {
      ValidateIff(env, depth, a.base, a.validator(v).value, r);
    }
  }

  // ----- Arguments of a construction ------------------------------------------------------------

  /** The value of an argument under that key. */
  ghost predicate Passed(entries: seq<(Value, Value)>, key: string, x: Value) {
    exists e :: 0 <= e < |entries| && entries[e] == (Str(key), x)
  }

  ghost predicate PassedAny(entries: seq<(Value, Value)>, key: string) {
    exists x :: Passed(entries, key, x)
  }

  lemma PassedIsFound(entries: seq<(Value, Value)>, key: string, x: Value)
    requires DistinctItems(Keys(entries))
    ensures Passed(entries, key, x) <==> Lookup(entries, Str(key)) == Some(x)
  {
    if Passed(entries, key, x) {
      var e :| 0 <= e < |entries| && entries[e] == (Str(key), x);
      LookupOfDistinct(entries, e, Str(key));
    }
    if Lookup(entries, Str(key)) == Some(x) {
      var e :| 0 <= e < |entries| && Same(entries[e].0, Str(key)) && x == entries[e].1;
      TextIsSameAsItself(entries[e].0, key);
    }
  }

  lemma TextIsSameAsItself(v: Value, text: string)
    ensures Same(v, Str(text)) <==> v == Str(text)
  {
  }

  lemma GivenByArguments(field: Field, entries: seq<(Value, Value)>, x: Value)
    requires DistinctItems(Keys(entries))
    ensures Given(field, entries, x) <==>
            if field.alias.Some? && PassedAny(entries, field.alias.value) then Passed(entries, field.alias.value, x)
            else if PassedAny(entries, field.name) then Passed(entries, field.name, x)
            else x == field.default
  {
    forall y ensures Passed(entries, field.name, y) <==> Lookup(entries, Str(field.name)) == Some(y) {
      PassedIsFound(entries, field.name, y);
    }
    if field.alias.Some? {
      forall y ensures Passed(entries, field.alias.value, y) <==> Lookup(entries, Str(field.alias.value)) == Some(y) {
        PassedIsFound(entries, field.alias.value, y);
      }
    }
  }

  /** With distinct argument names, each field of a constructed instance holds what its annotation makes of the
      argument under its alias; if there is none, of the one under its name; else of its default. */
  lemma ConstructedFromArguments(env: Environment, depth: nat, cls: string, entries: seq<(Value, Value)>, r: Value,
                                 i: nat)
    requires cls in env.classes && i < |env.classes[cls]| && DistinctItems(Keys(entries))
    requires Construct(env, depth, cls, entries) == Ok(r)
    ensures r.State? && r.cls == cls && |r.fields| == |env.classes[cls]|
    ensures var field := env.classes[cls][i];
            exists x ::
              && Becomes(env, depth, field.annotation, x, r.fields[i])
              && if field.alias.Some? && PassedAny(entries, field.alias.value)
                 then Passed(entries, field.alias.value, x)
                 else if PassedAny(entries, field.name) then Passed(entries, field.name, x)
                 else x == field.default
  {
    FieldsAgree(env, depth, cls, entries, r);
    assert FieldBecomes(env, depth, cls, i, entries, r.fields[i]);
    var field := env.classes[cls][i];
    var x :| Given(field, entries, x) && Becomes(env, depth, field.annotation, x, r.fields[i]);
    GivenByArguments(field, entries, x);
  }
}
