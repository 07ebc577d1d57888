/**
Exporting a State and validating the exported mapping gives the State back, exactly when no field holds
`Missing` in spite of a default.
*/
module RoundTrip {
  import opened Wrappers
  import opened Values
  import opened Annotations
  import opened Stability
  import opened States

  // ----- Which annotations and environments -----------------------------------------------------

  predicate Scalar(v: Value) {
    !v.Tuple? && !v.List? && !v.Set? && !v.Dict? && !v.State?
  }

  /** Scalars, sequences, sets, mappings, tuples, typed dictionaries, State classes and type aliases, with
      unions whose results are left alone by their other alternatives.  `Any` is excluded, since it does not
      turn an exported value back. */
  ghost predicate Plain(env: Environment, a: Annotation)
    decreases a
  {
    match a
    case AnyA => false
    case LiteralA(values) => forall i | 0 <= i < |values| :: Scalar(values[i])
    case TupleA(elements) => forall i | 0 <= i < |elements| :: Plain(env, elements[i])
    case SequenceA(element) => Plain(env, element)
    case SetA(element) => Plain(env, element)
    case MappingA(key, element) => Plain(env, key) && Plain(env, element)
    case TypedDictA(members) =>
      && DistinctNames(Names(members))
      && (forall i | 0 <= i < |members| :: Plain(env, members[i].annotation))
    case UnionA(alternatives, _) =>
      LeavesResults(env, a) && forall i | 0 <= i < |alternatives| :: Plain(env, alternatives[i])
    case VerifiedA(base, _) => Plain(env, base)
    case ValidatedA(_, _) => false
    case _ => true
  }

  ghost predicate Clash(f: Field, g: Field) {
    f.name == g.name || f.alias == Some(g.name) || g.alias == Some(f.name) || (f.alias.Some? && f.alias == g.alias)
  }

  /** No name or alias of a class is used twice, which the code asserts when the class is created. */
  ghost predicate DistinctFields(fields: seq<Field>) {
    && (forall i, j {:trigger Clash(fields[i], fields[j])} | 0 <= i < j < |fields| :: !Clash(fields[i], fields[j]))
    && (forall i | 0 <= i < |fields| :: fields[i].alias != Some(fields[i].name))
  }

  ghost predicate PlainClass(env: Environment, fields: seq<Field>) {
    DistinctFields(fields) && forall i | 0 <= i < |fields| :: Plain(env, fields[i].annotation)
  }

  ghost predicate PlainEnvironment(env: Environment) {
    && (forall name <- env.aliases :: Plain(env, env.aliases[name]))
    && (forall cls <- env.classes :: PlainClass(env, env.classes[cls]))
  }

  // ----- Exactly typed values -------------------------------------------------------------------

  ghost function MemberPairs(members: seq<Member>, entries: seq<(Value, Value)>): seq<Option<(Value, Value)>> {
    seq(|members|, i requires 0 <= i < |members| =>
      match Lookup(entries, Str(members[i].name))
      case None => None
      case Some(value) => Some((Str(members[i].name), value)))
  }

  /** The value has the annotated type without any coercion, with named types nested up to `depth`. */
  ghost predicate Exact(env: Environment, depth: nat, a: Annotation, v: Value)
    decreases depth, a
  {
    match a
    case NullA => v.Null?
    case MissingA => v.Missing?
    case BoolA => v.Bool?
    case IntA => v.Int?
    case FloatA => v.Float?
    case StrA => v.Str?
    case BytesA => v.Bytes?
    case SpecialA(kind) => v.Special? && v.kind == kind
    case LiteralA(values) => Holds(values, v) && Scalar(v)
    case TupleA(elements) =>
      && v.Tuple? && |v.items| == |elements|
      && forall i | 0 <= i < |elements| :: Exact(env, depth, elements[i], v.items[i])
    case SequenceA(element) => v.Tuple? && forall i | 0 <= i < |v.items| :: Exact(env, depth, element, v.items[i])
    case SetA(element) =>
      && v.Set? && DistinctItems(v.items)
      && forall i | 0 <= i < |v.items| :: Hashable(v.items[i]) && Exact(env, depth, element, v.items[i])
    case MappingA(key, element) =>
      && v.Dict? && DistinctItems(Keys(v.entries))
      && forall i | 0 <= i < |v.entries| ::
           && Hashable(v.entries[i].0)
           && Exact(env, depth, key, v.entries[i].0)
           && Exact(env, depth, element, v.entries[i].1)
    case TypedDictA(members) =>
      && v.Dict? && v.entries == Present(MemberPairs(members, v.entries))
      && forall i | 0 <= i < |members| ::
           (match Lookup(v.entries, Str(members[i].name))
            case None => !members[i].required
            case Some(value) => Exact(env, depth, members[i].annotation, value))
    case UnionA(alternatives, verifier) =>
      && verifier(v)
      && exists i :: 0 <= i < |alternatives| && Exact(env, depth, alternatives[i], v) && LeftAlone(env, a, i, v)
    case StateA(cls) =>
      && IsInstance(env, v) && v.cls == cls && depth > 0
      && forall i | 0 <= i < |v.fields| :: Exact(env, depth - 1, env.classes[cls][i].annotation, v.fields[i])
    case AliasA(name) => depth > 0 && name in env.aliases && Exact(env, depth - 1, env.aliases[name], v)
    case VerifiedA(base, verifier) => Exact(env, depth, base, v) && verifier(v)
    case _ => false
  }

  /** Wherever a field holds `Missing`, that is what its default gives as well. */
  ghost predicate NoStrayMissing(env: Environment, v: Value)
    decreases v
  {
    match v
    case State(cls, fields) =>
      IsInstance(env, v) ==>
        forall i | 0 <= i < |fields| ::
          && (fields[i].Missing? ==> env.classes[cls][i].default.Missing?)
          && NoStrayMissing(env, fields[i])
    case Dict(entries) => forall i | 0 <= i < |entries| :: NoStrayMissing(env, entries[i].1)
    case Tuple(items) => forall i | 0 <= i < |items| :: NoStrayMissing(env, items[i])
    case List(items) => forall i | 0 <= i < |items| :: NoStrayMissing(env, items[i])
    case Set(items) => forall i | 0 <= i < |items| :: NoStrayMissing(env, items[i])
    case _ => true
  }

  /** A value as it is, or exported. */
  ghost function Form(env: Environment, v: Value, exported: bool): Value {
    if exported then Export(env, v) else v
  }

  ghost predicate Comes(env: Environment, depth: nat, a: Annotation, v: Value, exported: bool) {
    Validate(env, depth, a, Form(env, v, exported)) == Ok(v)
  }

  ghost predicate Good(env: Environment, v: Value, exported: bool) {
    exported ==> NoStrayMissing(env, v)
  }

  /** Besides the given alternative of a union, no earlier one changes the value or its export, and none makes
      the value out of an export that has lost something. */
  ghost predicate LeftAlone(env: Environment, a: Annotation, k: nat, v: Value)
    requires a.UnionA?
  {
    forall depth: nat, i: nat, exported: bool
      {:trigger Attempt(env, depth, a, i, v, exported)} | i < |a.alternatives| && i != k ::
      var attempt := Attempt(env, depth, a, i, v, exported);
      (i < k ==> attempt.Err? || attempt == Ok(v)) && (attempt == Ok(v) ==> Good(env, v, exported))
  }

  ghost function Attempt(env: Environment, depth: nat, a: Annotation, i: nat, v: Value, exported: bool): Validated
    requires a.UnionA? && i < |a.alternatives|
  {
    ByAlternative(env, depth, a, Form(env, v, exported))[i]
  }

  ghost predicate LeavesResults(env: Environment, a: Annotation)
    requires a.UnionA?
  {
    forall depth: nat, v: Value, k: nat {:trigger Chosen(env, depth, a, v, k)} |
      k < |a.alternatives| && Chosen(env, depth, a, v, k) ::
      LeftAlone(env, a, k, ByAlternative(env, depth, a, v)[k].value)
  }

  // ----- Auxiliary facts ------------------------------------------------------------------------

  lemma {:induction false} DedupFull(items: seq<Value>)
    ensures |Dedup(items)| <= |items|
    ensures |Dedup(items)| == |items| ==> Dedup(items) == items
    decreases |items|
  {
    if items != [] {
      var n := |items| - 1;
      DedupFull(items[..n]);
      var before := Dedup(items[..n]);
      assert Dedup(items) == before || Dedup(items) == before + [items[n]];
      assert items[..n] + [items[n]] == items;
    }
  }

  /** Validation keeps `None` and `Missing`, and makes `Missing` out of nothing else. */
  lemma {:induction false} NullsAreKept(env: Environment, depth: nat, a: Annotation, v: Value)
    requires PlainEnvironment(env) && Plain(env, a) && Validate(env, depth, a, v).Ok?
    ensures v.Null? || v.Missing? ==> Validate(env, depth, a, v) == Ok(v)
    ensures Validate(env, depth, a, v) == Ok(Missing) ==> v.Missing?
    decreases depth, a
  {
    match a
    case UnionA(alternatives, _) =>
      var parts := ByAlternative(env, depth, a, v);
      FirstOkIsFirst(parts);
      var i :| 0 <= i < |parts| && parts[i] == Validate(env, depth, a, v);
      NullsAreKept(env, depth, alternatives[i], v);
    case AliasA(name) => NullsAreKept(env, depth - 1, env.aliases[name], v);
    case VerifiedA(base, _) => NullsAreKept(env, depth, base, v);
    case _ =>
  }

  lemma ExportKeepsKind(env: Environment, v: Value)
    ensures Scalar(v) ==> Export(env, v) == v
    ensures !v.Null? && !v.Missing? ==> !Export(env, v).Null? && !Export(env, v).Missing?
  {
  }

  ghost function FormItems(env: Environment, items: seq<Value>, exported: bool): seq<Value> {
    seq(|items|, i requires 0 <= i < |items| => Form(env, items[i], exported))
  }

  lemma ItemsOfForm(env: Environment, v: Value, exported: bool)
    requires v.Tuple? || v.Set?
    ensures IterableItems(Form(env, v, exported)) == Some(FormItems(env, v.items, exported))
    ensures v.Tuple? ==> SequenceItems(Form(env, v, exported)) == Some(FormItems(env, v.items, exported))
  {
    if exported {
      assert ExportAll(env, v) == FormItems(env, v.items, true);
      assert Export(env, v) == List(ExportAll(env, v));
    } else {
      assert v.items == FormItems(env, v.items, false);
    }
  }

  // ----- Round trip -----------------------------------------------------------------------------

  /** An exactly typed value always validates to itself, and its export validates back to it if and only if
      no field in it holds `Missing` in spite of a default. */
  lemma {:induction false} RoundTripIff(env: Environment, depth: nat, more: nat, a: Annotation, v: Value,
                                        exported: bool)
    requires PlainEnvironment(env) && Plain(env, a) && Exact(env, depth, a, v) && depth <= more
    ensures Comes(env, more, a, v, exported) <==> Good(env, v, exported)
    decreases depth, a, 2
  {
    match a
    case TupleA(_) => TupleRoundTrip(env, depth, more, a, v, exported);
    case SequenceA(_) => SequenceRoundTrip(env, depth, more, a, v, exported);
    case SetA(_) => SetRoundTrip(env, depth, more, a, v, exported);
    case MappingA(_, _) => MappingRoundTrip(env, depth, more, a, v, exported);
    case TypedDictA(_) => TypedDictRoundTrip(env, depth, more, a, v, exported);
    case UnionA(_, _) => UnionRoundTrip(env, depth, more, a, v, exported);
    case StateA(_) => if exported { StateRoundTrip(env, depth, more, a, v); }
    case AliasA(name) => RoundTripIff(env, depth - 1, more - 1, env.aliases[name], v, exported);
    case VerifiedA(base, _) => RoundTripIff(env, depth, more, base, v, exported);
    case _ => ExportKeepsKind(env, v);
  }

  lemma {:induction false} TupleRoundTrip(env: Environment, depth: nat, more: nat, a: Annotation, v: Value,
                                          exported: bool)
    requires PlainEnvironment(env) && Plain(env, a) && Exact(env, depth, a, v) && depth <= more && a.TupleA?
    ensures Comes(env, more, a, v, exported) <==> Good(env, v, exported)
    decreases depth, a, 1
  {
    var w := Form(env, v, exported);
    ItemsOfForm(env, v, exported);
    var items := SequenceItems(w).value;
    var parts := ByPosition(env, more, a, items);
    forall i | 0 <= i < |items| ensures parts[i] == Ok(v.items[i]) <==> Good(env, v.items[i], exported) {
      RoundTripIff(env, depth, more, a.elements[i], v.items[i], exported);
    }
    CollectIff(parts, v.items);
  }

  lemma {:induction false} SequenceRoundTrip(env: Environment, depth: nat, more: nat, a: Annotation, v: Value,
                                             exported: bool)
    requires PlainEnvironment(env) && Plain(env, a) && Exact(env, depth, a, v) && depth <= more && a.SequenceA?
    ensures Comes(env, more, a, v, exported) <==> Good(env, v, exported)
    decreases depth, a, 1
  {
    var w := Form(env, v, exported);
    ItemsOfForm(env, v, exported);
    var items := SequenceItems(w).value;
    var parts := ByElement(env, more, a, items);
    forall i | 0 <= i < |items| ensures parts[i] == Ok(v.items[i]) <==> Good(env, v.items[i], exported) {
      RoundTripIff(env, depth, more, a.element, v.items[i], exported);
    }
    CollectIff(parts, v.items);
  }

  lemma {:induction false} SetRoundTrip(env: Environment, depth: nat, more: nat, a: Annotation, v: Value,
                                        exported: bool)
    requires PlainEnvironment(env) && Plain(env, a) && Exact(env, depth, a, v) && depth <= more && a.SetA?
    ensures Comes(env, more, a, v, exported) <==> Good(env, v, exported)
    decreases depth, a, 1
  {
    var w := Form(env, v, exported);
    ItemsOfForm(env, v, exported);
    var items := IterableItems(w).value;
    var parts := ByElement(env, more, a, items);
    forall i | 0 <= i < |items| ensures parts[i] == Ok(v.items[i]) <==> Good(env, v.items[i], exported) {
      RoundTripIff(env, depth, more, a.element, v.items[i], exported);
    }
    CollectIff(parts, v.items);
    CollectIsAll(parts);
    SetComes(Collect(parts), v.items);
  }

  lemma SetComes(results: Result<seq<Value>, Error>, items: seq<Value>)
    requires DistinctItems(items) && forall i | 0 <= i < |items| :: Hashable(items[i])
    requires results.Ok? ==> |results.value| == |items|
    ensures ToSet(results) == Ok(Set(items)) <==> results == Ok(items)
  {
    DedupOfDistinct(items);
    if results.Ok? {
      DedupFull(results.value);
    }
  }

  lemma {:induction false} MappingRoundTrip(env: Environment, depth: nat, more: nat, a: Annotation, v: Value,
                                            exported: bool)
    requires PlainEnvironment(env) && Plain(env, a) && Exact(env, depth, a, v) && depth <= more && a.MappingA?
    ensures Comes(env, more, a, v, exported) <==> Good(env, v, exported)
    decreases depth, a, 1
  {
    FormIsDict(env, v, exported);
    var parts := ByPair(env, more, a, Form(env, v, exported).entries);
    forall i | 0 <= i < |v.entries|
      ensures parts[i] == Ok(v.entries[i]) <==> Good(env, v.entries[i].1, exported)
      ensures parts[i].Ok? ==> parts[i].value.0 == v.entries[i].0
    {
      RoundTripIff(env, depth, more, a.key, v.entries[i].0, false);
      RoundTripIff(env, depth, more, a.element, v.entries[i].1, exported);
      EntryComes(env, more, a, v, i, exported);
    }
    MappingComes(env, more, a, v, exported);
  }

  lemma EntryComes(env: Environment, depth: nat, a: Annotation, v: Value, i: nat, exported: bool)
    requires a.MappingA? && v.Dict? && i < |v.entries|
    requires Comes(env, depth, a.key, v.entries[i].0, false)
    requires Comes(env, depth, a.element, v.entries[i].1, exported) <==> Good(env, v.entries[i].1, exported)
    ensures Form(env, v, exported).Dict? && |Form(env, v, exported).entries| == |v.entries|
    ensures var part := ByPair(env, depth, a, Form(env, v, exported).entries)[i];
            && (part == Ok(v.entries[i]) <==> Good(env, v.entries[i].1, exported))
            && (part.Ok? ==> part.value.0 == v.entries[i].0)
  {
    FormOfEntry(env, v, i, exported);
  }

  lemma MappingComes(env: Environment, depth: nat, a: Annotation, v: Value, exported: bool)
    requires a.MappingA? && v.Dict? && DistinctItems(Keys(v.entries))
    requires forall i | 0 <= i < |v.entries| :: Hashable(v.entries[i].0)
    requires Form(env, v, exported).Dict? && |Form(env, v, exported).entries| == |v.entries|
    requires var parts := ByPair(env, depth, a, Form(env, v, exported).entries);
             forall i | 0 <= i < |v.entries| ::
               && (parts[i] == Ok(v.entries[i]) <==> Good(env, v.entries[i].1, exported))
               && (parts[i].Ok? ==> parts[i].value.0 == v.entries[i].0)
    ensures Comes(env, depth, a, v, exported) <==> Good(env, v, exported)
  {
    var parts := ByPair(env, depth, a, Form(env, v, exported).entries);
    CollectIff(parts, v.entries);
    CollectIsAll(parts);
    DictComes(Collect(parts), v.entries);
  }

  lemma FormIsDict(env: Environment, v: Value, exported: bool)
    requires v.Dict?
    ensures Form(env, v, exported).Dict? && |Form(env, v, exported).entries| == |v.entries|
  {
  }

  lemma FormOfEntry(env: Environment, v: Value, i: nat, exported: bool)
    requires v.Dict? && i < |v.entries|
    ensures Form(env, v, exported).Dict? && |Form(env, v, exported).entries| == |v.entries|
    ensures Form(env, v, exported).entries[i] == (v.entries[i].0, Form(env, v.entries[i].1, exported))
  {
  }

  lemma DictComes(results: Result<seq<(Value, Value)>, Error>, entries: seq<(Value, Value)>)
    requires DistinctItems(Keys(entries)) && forall i | 0 <= i < |entries| :: Hashable(entries[i].0)
    requires results.Ok? ==>
               && |results.value| == |entries|
               && forall i | 0 <= i < |entries| :: results.value[i].0 == entries[i].0
    ensures ToDict(results) == Ok(Dict(entries)) <==> results == Ok(entries)
  {
    DictOfDistinct(entries);
    if results.Ok? {
      assert Keys(results.value) == Keys(entries);
      DictOfDistinct(results.value);
    }
  }

  lemma {:induction false} UnionRoundTrip(env: Environment, depth: nat, more: nat, a: Annotation, v: Value,
                                          exported: bool)
    requires PlainEnvironment(env) && Plain(env, a) && Exact(env, depth, a, v) && depth <= more && a.UnionA?
    ensures Comes(env, more, a, v, exported) <==> Good(env, v, exported)
    decreases depth, a, 1
  {
    var k :| 0 <= k < |a.alternatives| && Exact(env, depth, a.alternatives[k], v) && LeftAlone(env, a, k, v);
    RoundTripIff(env, depth, more, a.alternatives[k], v, exported);
    LeftAloneComes(env, more, a, k, v, exported);
  }

  lemma LeftAloneComes(env: Environment, depth: nat, a: Annotation, k: nat, v: Value, exported: bool)
    requires a.UnionA? && k < |a.alternatives| && a.verifier(v) && LeftAlone(env, a, k, v)
    requires Comes(env, depth, a.alternatives[k], v, exported) <==> Good(env, v, exported)
    ensures Comes(env, depth, a, v, exported) <==> Good(env, v, exported)
  {
    var attempts := ByAlternative(env, depth, a, Form(env, v, exported));
    assert attempts[k] == Ok(v) <==> Good(env, v, exported);
    forall i | 0 <= i < |attempts| && i != k
      ensures i < k ==> attempts[i].Err? || attempts[i] == Ok(v)
      ensures attempts[i] == Ok(v) ==> Good(env, v, exported)
    {
      assert attempts[i] == Attempt(env, depth, a, i, v, exported);
    }
    if Good(env, v, exported) {
      FirstOkAgrees(attempts, k, v);
    } else {
      FirstOkIsFirst(attempts);
    }
  }

  // ----- Typed dictionaries ---------------------------------------------------------------------

  ghost function FormEntries(env: Environment, entries: seq<(Value, Value)>, exported: bool): seq<(Value, Value)> {
    seq(|entries|, i requires 0 <= i < |entries| => (entries[i].0, Form(env, entries[i].1, exported)))
  }

  lemma {:induction false} LookupOfForm(env: Environment, entries: seq<(Value, Value)>, exported: bool, key: Value)
    ensures Lookup(FormEntries(env, entries, exported), key) ==
            match Lookup(entries, key) case None => None case Some(value) => Some(Form(env, value, exported))
  {
    if entries != [] && !Same(entries[0].0, key) {
      LookupOfForm(env, entries[1..], exported, key);
      assert FormEntries(env, entries, exported)[1..] == FormEntries(env, entries[1..], exported);
    }
  }

  /** The pairs of the members are exactly the entries. */
  lemma EntriesArePairs(env: Environment, members: seq<Member>, entries: seq<(Value, Value)>)
    requires entries == Present(MemberPairs(members, entries))
    ensures (forall k | 0 <= k < |entries| :: NoStrayMissing(env, entries[k].1)) <==>
            (forall i | 0 <= i < |members| ::
               var pair := MemberPairs(members, entries)[i]; pair.Some? ==> NoStrayMissing(env, pair.value.1))
  {
    var pairs := MemberPairs(members, entries);
    PresentIsSome(pairs);
    if forall i | 0 <= i < |members| :: pairs[i].Some? ==> NoStrayMissing(env, pairs[i].value.1) {
      forall k | 0 <= k < |entries| ensures NoStrayMissing(env, entries[k].1) {
        assert entries[k] in Present(pairs);
        var i :| 0 <= i < |pairs| && pairs[i] == Some(entries[k]);
      }
    }
    if forall k | 0 <= k < |entries| :: NoStrayMissing(env, entries[k].1) {
      forall i | 0 <= i < |members| && pairs[i].Some? ensures NoStrayMissing(env, pairs[i].value.1) {
        assert pairs[i].value in Present(pairs);
        var k :| 0 <= k < |entries| && entries[k] == pairs[i].value;
      }
    }
  }

  lemma {:induction false} TypedDictRoundTrip(env: Environment, depth: nat, more: nat, a: Annotation, v: Value,
                                              exported: bool)
    requires PlainEnvironment(env) && Plain(env, a) && Exact(env, depth, a, v) && depth <= more && a.TypedDictA?
    ensures Comes(env, more, a, v, exported) <==> Good(env, v, exported)
    decreases depth, a, 1
  {
    var w := Form(env, v, exported);
    assert w.entries == FormEntries(env, v.entries, exported);
    var pairs := MemberPairs(a.members, v.entries);
    var parts := ByMember(env, more, a, w.entries);
    forall i | 0 <= i < |pairs|
      ensures parts[i] == Ok(pairs[i]) <==> (pairs[i].Some? ==> Good(env, pairs[i].value.1, exported))
    {
      LookupOfForm(env, v.entries, exported, Str(a.members[i].name));
      if pairs[i].Some? {
        RoundTripIff(env, depth, more, a.members[i].annotation, pairs[i].value.1, exported);
      }
    }
    CollectIff(parts, pairs);
    EntriesArePairs(env, a.members, v.entries);
    TypedDictComes(env, more, a, w.entries, v.entries);
  }

  /** Validating a typed dictionary gives these entries exactly when it gives their pairs. */
  lemma TypedDictComes(env: Environment, depth: nat, a: Annotation, from: seq<(Value, Value)>,
                       entries: seq<(Value, Value)>)
    requires a.TypedDictA? && DistinctNames(Names(a.members))
    requires entries == Present(MemberPairs(a.members, entries))
    ensures Validate(env, depth, a, Dict(from)) == Ok(Dict(entries)) <==>
            Collect(ByMember(env, depth, a, from)) == Ok(MemberPairs(a.members, entries))
  {
    var names, pairs := Names(a.members), MemberPairs(a.members, entries);
    var parts := Collect(ByMember(env, depth, a, from));
    assert PairsOf(names, pairs);
    PresentIsDistinct(names, pairs);
    DictOfDistinct(entries);
    PresentIsSome(pairs);
    if parts == Ok(pairs) {
      forall k | 0 <= k < |entries| ensures Hashable(entries[k].0) {
        assert entries[k] in Present(pairs);
      }
    }
    if Validate(env, depth, a, Dict(from)) == Ok(Dict(entries)) {
      SamePairs(env, depth, a, from, entries);
    }
  }

  /** Validation that gives these entries gave exactly their pairs. */
  lemma SamePairs(env: Environment, depth: nat, a: Annotation, from: seq<(Value, Value)>, entries: seq<(Value, Value)>)
    requires a.TypedDictA? && DistinctNames(Names(a.members))
    requires var parts := Collect(ByMember(env, depth, a, from));
             parts.Ok? && DictOf(Present(parts.value)) == entries
    ensures Collect(ByMember(env, depth, a, from)) == Ok(MemberPairs(a.members, entries))
  {
    var names, found := Names(a.members), Collect(ByMember(env, depth, a, from)).value;
    CollectIsAll(ByMember(env, depth, a, from));
    PairsAreMembers(env, depth, a, from);
    PresentIsDistinct(names, found);
    DictOfDistinct(Present(found));
    forall i | 0 <= i < |found| ensures found[i] == MemberPairs(a.members, entries)[i] {
      MembersFound(names, found, i);
    }
    assert found == MemberPairs(a.members, entries);
  }

  // ----- State classes --------------------------------------------------------------------------

  ghost function ExportNames(fields: seq<Field>): seq<string> {
    seq(|fields|, i requires 0 <= i < |fields| =>
      if fields[i].alias.Some? then fields[i].alias.value else fields[i].name)
  }

  lemma ExportNamesDistinct(fields: seq<Field>)
    requires DistinctFields(fields)
    ensures DistinctNames(ExportNames(fields))
  {
    forall i, j | 0 <= i < j < |fields| ensures ExportNames(fields)[i] != ExportNames(fields)[j] {
      assert !Clash(fields[i], fields[j]);
    }
  }

  lemma NotExported(names: seq<string>, pairs: seq<Option<(Value, Value)>>, name: string)
    requires PairsOf(names, pairs) && name !in names
    ensures Lookup(Present(pairs), Str(name)) == None
  {
    var all := Present(pairs);
    PresentIsSome(pairs);
    forall k | 0 <= k < |all| ensures !Same(all[k].0, Str(name)) {
      assert all[k] in all;
      var j :| 0 <= j < |pairs| && pairs[j] == Some(all[k]);
      assert all[k].0 == Str(names[j]) && names[j] in names;
    }
  }

  lemma AliasedNameNotExported(fields: seq<Field>, i: nat)
    requires DistinctFields(fields) && i < |fields| && fields[i].alias.Some?
    ensures fields[i].name !in ExportNames(fields)
  {
    forall j | 0 <= j < |fields| ensures ExportNames(fields)[j] != fields[i].name {
      assert i < j ==> !Clash(fields[i], fields[j]);
      assert j < i ==> !Clash(fields[j], fields[i]);
    }
  }

  lemma ExportIsDict(env: Environment, v: Value)
    requires IsInstance(env, v) && DistinctFields(env.classes[v.cls])
    ensures PairsOf(ExportNames(env.classes[v.cls]), ExportFields(env, v))
    ensures Export(env, v) == Dict(Present(ExportFields(env, v)))
  {
    var fields, pairs := env.classes[v.cls], ExportFields(env, v);
    ExportNamesDistinct(fields);
    assert PairsOf(ExportNames(fields), pairs);
    PresentIsDistinct(ExportNames(fields), pairs);
    DictOfDistinct(Present(pairs));
  }

  /** Reading the export back: each field finds its own exported value, or its default if it was missing. */
  lemma ExportIsRead(env: Environment, v: Value, i: nat)
    requires IsInstance(env, v) && DistinctFields(env.classes[v.cls]) && i < |v.fields|
    ensures var fields, entries := env.classes[v.cls], Present(ExportFields(env, v));
            && Source(fields[i], entries) ==
               (if v.fields[i].Missing? then fields[i].default else Export(env, v.fields[i]))
            && (fields[i].alias.Some? ==> Lookup(entries, Str(fields[i].name)).None?)
  {
    var fields, pairs := env.classes[v.cls], ExportFields(env, v);
    var names := ExportNames(fields);
    ExportIsDict(env, v);
    MembersFound(names, pairs, i);
    if fields[i].alias.Some? {
      AliasedNameNotExported(fields, i);
      NotExported(names, pairs, fields[i].name);
    }
  }

  lemma ExportIsAccepted(env: Environment, v: Value)
    requires IsInstance(env, v) && DistinctFields(env.classes[v.cls])
    ensures Accepts(env.classes[v.cls], Present(ExportFields(env, v)))
  {
    var fields, pairs := env.classes[v.cls], ExportFields(env, v);
    var entries := Present(pairs);
    PresentIsSome(pairs);
    forall e | 0 <= e < |entries| ensures exists f :: 0 <= f < |fields| && NamesField(fields[f], entries[e].0) {
      assert entries[e] in entries;
      var f :| 0 <= f < |pairs| && pairs[f] == Some(entries[e]);
      assert NamesField(fields[f], entries[e].0);
    }
    forall f | 0 <= f < |fields| && fields[f].alias.Some? ensures Lookup(entries, Str(fields[f].name)).None? {
      ExportIsRead(env, v, f);
    }
  }

  lemma FieldIsExact(env: Environment, depth: nat, v: Value, i: nat)
    requires PlainEnvironment(env) && v.State? && Exact(env, depth, StateA(v.cls), v) && i < |v.fields|
    ensures IsInstance(env, v) && DistinctFields(env.classes[v.cls]) && depth > 0
    ensures Plain(env, env.classes[v.cls][i].annotation)
    ensures Exact(env, depth - 1, env.classes[v.cls][i].annotation, v.fields[i])
  {
    assert PlainClass(env, env.classes[v.cls]);
  }

  lemma FieldIsReadFromExport(env: Environment, depth: nat, v: Value, i: nat)
    requires IsInstance(env, v) && DistinctFields(env.classes[v.cls]) && i < |v.fields|
    ensures ByField(env, depth, env.classes[v.cls], Present(ExportFields(env, v)))[i] ==
            Validate(env, depth, env.classes[v.cls][i].annotation,
                     if v.fields[i].Missing? then env.classes[v.cls][i].default else Export(env, v.fields[i]))
  {
    ExportIsRead(env, v, i);
  }

  ghost predicate FieldSurvives(env: Environment, v: Value, i: nat)
    requires IsInstance(env, v) && i < |v.fields|
  {
    && (v.fields[i].Missing? ==> env.classes[v.cls][i].default.Missing?)
    && NoStrayMissing(env, v.fields[i])
  }

  /** A value that is exported, or replaced by a default when it is missing, comes back unless it is missing
      and the default is not. */
  lemma {:induction false} ReadBackIff(env: Environment, depth: nat, more: nat, a: Annotation, v: Value, default: Value)
    requires PlainEnvironment(env) && Plain(env, a) && Exact(env, depth, a, v) && depth <= more
    ensures Validate(env, more, a, if v.Missing? then default else Export(env, v)) == Ok(v) <==>
            (v.Missing? ==> default.Missing?) && NoStrayMissing(env, v)
    decreases depth, a, 3
  {
    if v.Missing? && !default.Missing? {
      if Validate(env, more, a, default) == Ok(Missing) {
        NullsAreKept(env, more, a, default);
      }
    } else {
      RoundTripIff(env, depth, more, a, v, true);
    }
  }

  lemma {:induction false} FieldRoundTrip(env: Environment, depth: nat, more: nat, v: Value, i: nat)
    requires PlainEnvironment(env) && IsInstance(env, v) && DistinctFields(env.classes[v.cls]) && i < |v.fields|
    requires Plain(env, env.classes[v.cls][i].annotation) && depth <= more
    requires Exact(env, depth, env.classes[v.cls][i].annotation, v.fields[i])
    ensures FieldComes(env, more, v, i) <==> FieldSurvives(env, v, i)
    decreases depth, env.classes[v.cls][i].annotation, 4
  {
    var field := env.classes[v.cls][i];
    FieldIsReadFromExport(env, more, v, i);
    ReadBackIff(env, depth, more, field.annotation, v.fields[i], field.default);
  }

  lemma {:induction false} StateRoundTrip(env: Environment, depth: nat, more: nat, a: Annotation, v: Value)
    requires PlainEnvironment(env) && Exact(env, depth, a, v) && depth <= more && a.StateA?
    ensures Comes(env, more, a, v, true) <==> Good(env, v, true)
    decreases depth, a, 1
  {
    forall i | 0 <= i < |v.fields| ensures FieldComes(env, more - 1, v, i) <==> FieldSurvives(env, v, i) {
      FieldIsExact(env, depth, v, i);
      FieldRoundTrip(env, depth - 1, more - 1, v, i);
    }
    ClassIsDistinct(env, v.cls);
    StateComesByFields(env, more, v);
  }

  lemma ClassIsDistinct(env: Environment, cls: string)
    requires PlainEnvironment(env) && cls in env.classes
    ensures DistinctFields(env.classes[cls])
  {
    assert PlainClass(env, env.classes[cls]);
  }

  ghost predicate FieldComes(env: Environment, depth: nat, v: Value, i: nat)
    requires IsInstance(env, v) && i < |v.fields|
  {
    ByField(env, depth, env.classes[v.cls], Present(ExportFields(env, v)))[i] == Ok(v.fields[i])
  }

  lemma StateComesByFields(env: Environment, depth: nat, v: Value)
    requires IsInstance(env, v) && DistinctFields(env.classes[v.cls]) && depth > 0
    requires forall i | 0 <= i < |v.fields| :: FieldComes(env, depth - 1, v, i) <==> FieldSurvives(env, v, i)
    ensures Comes(env, depth, StateA(v.cls), v, true) <==> NoStrayMissing(env, v)
  {
    var constructed := Construct(env, depth - 1, v.cls, Present(ExportFields(env, v)));
    assert constructed == Ok(v) <==> NoStrayMissing(env, v) by {
      ConstructedByFields(env, depth - 1, v);
    }
    assert Validate(env, depth, StateA(v.cls), Form(env, v, true)) == constructed by {
      ExportIsConstructed(env, depth, v);
    }
  }

  lemma ConstructedByFields(env: Environment, depth: nat, v: Value)
    requires IsInstance(env, v)
    requires forall i | 0 <= i < |v.fields| :: FieldComes(env, depth, v, i) <==> FieldSurvives(env, v, i)
    ensures Construct(env, depth, v.cls, Present(ExportFields(env, v))) == Ok(v) <==> NoStrayMissing(env, v)
  {
    SurvivalIsPerField(env, v);
    var entries := Present(ExportFields(env, v));
    ConstructComes(env, depth, v, entries);
    if Construct(env, depth, v.cls, entries) == Ok(v) {
      forall i | 0 <= i < |v.fields| ensures FieldSurvives(env, v, i) {
        assert FieldComes(env, depth, v, i);
      }
    } else {
      var i :| 0 <= i < |v.fields| && ByField(env, depth, env.classes[v.cls], entries)[i] != Ok(v.fields[i]);
      assert !FieldComes(env, depth, v, i);
      assert !FieldSurvives(env, v, i);
    }
  }

  lemma SurvivalIsPerField(env: Environment, v: Value)
    requires IsInstance(env, v)
    ensures NoStrayMissing(env, v) <==> forall i | 0 <= i < |v.fields| :: FieldSurvives(env, v, i)
  {
    if forall i | 0 <= i < |v.fields| :: FieldSurvives(env, v, i) {
      forall i | 0 <= i < |v.fields|
        ensures (v.fields[i].Missing? ==> env.classes[v.cls][i].default.Missing?) && NoStrayMissing(env, v.fields[i])
      {
        assert FieldSurvives(env, v, i);
      }
    }
  }

  lemma MappingIsConstructed(env: Environment, depth: nat, cls: string, entries: seq<(Value, Value)>)
    requires cls in env.classes && depth > 0 && Accepts(env.classes[cls], entries)
    ensures Validate(env, depth, StateA(cls), Dict(entries)) == Construct(env, depth - 1, cls, entries)
  {
  }

  /** An exported instance is validated by constructing an instance from the export. */
  lemma ExportIsConstructed(env: Environment, depth: nat, v: Value)
    requires IsInstance(env, v) && DistinctFields(env.classes[v.cls]) && depth > 0
    ensures Validate(env, depth, StateA(v.cls), Export(env, v)) ==
            Construct(env, depth - 1, v.cls, Present(ExportFields(env, v)))
  {
    ExportIsAccepted(env, v);
    ExportIsDict(env, v);
    MappingIsConstructed(env, depth, v.cls, Present(ExportFields(env, v)));
  }

  lemma ConstructComes(env: Environment, depth: nat, v: Value, entries: seq<(Value, Value)>)
    requires IsInstance(env, v)
    ensures Construct(env, depth, v.cls, entries) == Ok(v) <==>
            forall i | 0 <= i < |v.fields| :: ByField(env, depth, env.classes[v.cls], entries)[i] == Ok(v.fields[i])
  {
    CollectIff(ByField(env, depth, env.classes[v.cls], entries), v.fields);
  }

  // ----- Validated values are exactly typed -----------------------------------------------------

  /** Every State instance inside the value is exactly typed, as instances made by validation are. */
  ghost predicate InstancesExact(env: Environment, bound: nat, v: Value)
    decreases v
  {
    match v
    case State(cls, _) => Exact(env, bound, StateA(cls), v)
    case Dict(entries) =>
      forall i | 0 <= i < |entries| ::
        InstancesExact(env, bound, entries[i].0) && InstancesExact(env, bound, entries[i].1)
    case Tuple(items) => forall i | 0 <= i < |items| :: InstancesExact(env, bound, items[i])
    case List(items) => forall i | 0 <= i < |items| :: InstancesExact(env, bound, items[i])
    case Set(items) => forall i | 0 <= i < |items| :: InstancesExact(env, bound, items[i])
    case _ => true
  }

  ghost predicate DefaultsExact(env: Environment, bound: nat) {
    forall cls <- env.classes :: forall i | 0 <= i < |env.classes[cls]| ::
      InstancesExact(env, bound, env.classes[cls][i].default)
  }

  lemma {:induction false} ExactDeeper(env: Environment, depth: nat, more: nat, a: Annotation, v: Value)
    requires Exact(env, depth, a, v) && depth <= more
    ensures Exact(env, more, a, v)
    decreases depth, a, 1
  {
    match a
    case TupleA(elements) =>
      forall i | 0 <= i < |elements| ensures Exact(env, more, elements[i], v.items[i]) {
        ExactDeeper(env, depth, more, elements[i], v.items[i]);
      }
    case SequenceA(_) => ElementsDeeper(env, depth, more, a, v);
    case SetA(_) => ElementsDeeper(env, depth, more, a, v);
    case MappingA(_, _) => EntriesDeeper(env, depth, more, a, v);
    case TypedDictA(_) => MembersDeeper(env, depth, more, a, v);
    case UnionA(alternatives, _) =>
      var i :| 0 <= i < |alternatives| && Exact(env, depth, alternatives[i], v) && LeftAlone(env, a, i, v);
      ExactDeeper(env, depth, more, alternatives[i], v);
      assert Exact(env, more, alternatives[i], v) && LeftAlone(env, a, i, v);
    case StateA(cls) =>
      forall i | 0 <= i < |v.fields| ensures Exact(env, more - 1, env.classes[cls][i].annotation, v.fields[i]) {
        ExactDeeper(env, depth - 1, more - 1, env.classes[cls][i].annotation, v.fields[i]);
      }
    case AliasA(name) => ExactDeeper(env, depth - 1, more - 1, env.aliases[name], v);
    case VerifiedA(base, _) => ExactDeeper(env, depth, more, base, v);
    case _ =>
  }

  lemma {:induction false} ElementsDeeper(env: Environment, depth: nat, more: nat, a: Annotation, v: Value)
    requires Exact(env, depth, a, v) && depth <= more && (a.SequenceA? || a.SetA?)
    ensures Exact(env, more, a, v)
    decreases depth, a, 0
  {
    forall i | 0 <= i < |v.items| ensures Exact(env, more, a.element, v.items[i]) {
      ExactDeeper(env, depth, more, a.element, v.items[i]);
    }
  }

  lemma {:induction false} EntriesDeeper(env: Environment, depth: nat, more: nat, a: Annotation, v: Value)
    requires Exact(env, depth, a, v) && depth <= more && a.MappingA?
    ensures Exact(env, more, a, v)
    decreases depth, a, 0
  {
    forall i | 0 <= i < |v.entries|
      ensures Exact(env, more, a.key, v.entries[i].0) && Exact(env, more, a.element, v.entries[i].1)
    {
      ExactDeeper(env, depth, more, a.key, v.entries[i].0);
      ExactDeeper(env, depth, more, a.element, v.entries[i].1);
    }
  }

  lemma {:induction false} MembersDeeper(env: Environment, depth: nat, more: nat, a: Annotation, v: Value)
    requires Exact(env, depth, a, v) && depth <= more && a.TypedDictA?
    ensures Exact(env, more, a, v)
    decreases depth, a, 0
  {
    forall i | 0 <= i < |a.members| && Lookup(v.entries, Str(a.members[i].name)).Some?
      ensures Exact(env, more, a.members[i].annotation, Lookup(v.entries, Str(a.members[i].name)).value)
    {
      ExactDeeper(env, depth, more, a.members[i].annotation, Lookup(v.entries, Str(a.members[i].name)).value);
    }
  }

  lemma LookupInstances(env: Environment, bound: nat, entries: seq<(Value, Value)>, key: Value)
    requires InstancesExact(env, bound, Dict(entries)) && Lookup(entries, key).Some?
    ensures InstancesExact(env, bound, Lookup(entries, key).value)
  {
  }

  /** Validation of plain data and exactly typed instances gives exactly typed values. */
  lemma {:induction false} ValidatedIsExact(env: Environment, bound: nat, depth: nat, a: Annotation, v: Value)
    requires PlainEnvironment(env) && DefaultsExact(env, bound) && Plain(env, a)
    requires InstancesExact(env, bound, v) && Validate(env, depth, a, v).Ok?
    ensures Exact(env, bound + depth, a, Validate(env, depth, a, v).value)
    decreases depth, a, 2
  {
    match a
    case TupleA(_) => TupleIsExact(env, bound, depth, a, v);
    case SequenceA(_) => ElementsAreExact(env, bound, depth, a, SequenceItems(v).value);
    case SetA(_) => SetIsExact(env, bound, depth, a, v);
    case MappingA(_, _) => MappingIsExact(env, bound, depth, a, v);
    case TypedDictA(_) => TypedDictIsExact(env, bound, depth, a, v);
    case UnionA(_, _) => UnionIsExact(env, bound, depth, a, v);
    case StateA(_) => InstanceIsExact(env, bound, depth, a, v);
    case AliasA(name) => ValidatedIsExact(env, bound, depth - 1, env.aliases[name], v);
    case VerifiedA(base, _) => ValidatedIsExact(env, bound, depth, base, v);
    case AnyA =>
    case ValidatedA(_, _) =>
    case _ => ScalarIsExact(env, bound + depth, depth, a, v);
  }

  lemma ScalarIsExact(env: Environment, more: nat, depth: nat, a: Annotation, v: Value)
    requires Plain(env, a) && Validate(env, depth, a, v).Ok?
    requires || a.NullA? || a.MissingA? || a.BoolA? || a.IntA? || a.FloatA? || a.StrA? || a.BytesA? || a.SpecialA?
             || a.LiteralA?
    ensures Exact(env, more, a, Validate(env, depth, a, v).value)
  {
  }

  lemma {:induction false} InstanceIsExact(env: Environment, bound: nat, depth: nat, a: Annotation, v: Value)
    requires PlainEnvironment(env) && DefaultsExact(env, bound) && a.StateA?
    requires InstancesExact(env, bound, v) && Validate(env, depth, a, v).Ok?
    ensures Exact(env, bound + depth, a, Validate(env, depth, a, v).value)
    decreases depth, a, 0
  {
    if v.State? {
      ExactDeeper(env, bound, bound + depth, a, v);
    } else {
      ConstructedIsExact(env, bound, depth - 1, a.cls, v.entries);
    }
  }

  lemma {:induction false} UnionIsExact(env: Environment, bound: nat, depth: nat, a: Annotation, v: Value)
    requires PlainEnvironment(env) && DefaultsExact(env, bound) && Plain(env, a) && a.UnionA?
    requires InstancesExact(env, bound, v) && Validate(env, depth, a, v).Ok?
    ensures Exact(env, bound + depth, a, Validate(env, depth, a, v).value)
    decreases depth, a, 0
  {
    var k := FirstIsChosen(env, depth, a, v);
    ValidatedIsExact(env, bound, depth, a.alternatives[k], v);
  }

  lemma {:induction false} ElementsAreExact(env: Environment, bound: nat, depth: nat, a: Annotation, items: seq<Value>)
    requires PlainEnvironment(env) && DefaultsExact(env, bound) && Plain(env, a) && (a.SequenceA? || a.SetA?)
    requires forall i | 0 <= i < |items| :: InstancesExact(env, bound, items[i])
    requires Collect(ByElement(env, depth, a, items)).Ok?
    ensures var results := Collect(ByElement(env, depth, a, items)).value;
            forall i | 0 <= i < |results| :: Exact(env, bound + depth, a.element, results[i])
    decreases depth, a, 0
  {
    var parts := ByElement(env, depth, a, items);
    CollectIsAll(parts);
    var results := Collect(parts).value;
    forall i | 0 <= i < |results| ensures Exact(env, bound + depth, a.element, results[i]) {
      assert parts[i] == Ok(results[i]);
      ValidatedIsExact(env, bound, depth, a.element, items[i]);
    }
  }

  lemma {:induction false} TupleIsExact(env: Environment, bound: nat, depth: nat, a: Annotation, v: Value)
    requires PlainEnvironment(env) && DefaultsExact(env, bound) && Plain(env, a) && a.TupleA?
    requires InstancesExact(env, bound, v) && Validate(env, depth, a, v).Ok?
    ensures Exact(env, bound + depth, a, Validate(env, depth, a, v).value)
    decreases depth, a, 0
  {
    var items := SequenceItems(v).value;
    var parts := ByPosition(env, depth, a, items);
    CollectIsAll(parts);
    forall i | 0 <= i < |items| ensures Exact(env, bound + depth, a.elements[i], Collect(parts).value[i]) {
      assert parts[i] == Ok(Collect(parts).value[i]);
      ValidatedIsExact(env, bound, depth, a.elements[i], items[i]);
    }
  }

  lemma {:induction false} SetIsExact(env: Environment, bound: nat, depth: nat, a: Annotation, v: Value)
    requires PlainEnvironment(env) && DefaultsExact(env, bound) && Plain(env, a) && a.SetA?
    requires InstancesExact(env, bound, v) && Validate(env, depth, a, v).Ok?
    ensures Exact(env, bound + depth, a, Validate(env, depth, a, v).value)
    decreases depth, a, 1
  {
    var items := IterableItems(v).value;
    assert forall i | 0 <= i < |items| :: InstancesExact(env, bound, items[i]);
    ElementsAreExact(env, bound, depth, a, items);
    var results := Collect(ByElement(env, depth, a, items)).value;
    var kept := Dedup(results);
    DedupIsDistinct(results);
    forall i | 0 <= i < |kept| ensures Hashable(kept[i]) && Exact(env, bound + depth, a.element, kept[i]) {
      assert kept[i] in results;
      var j :| 0 <= j < |results| && results[j] == kept[i];
    }
  }

  lemma {:induction false} MappingIsExact(env: Environment, bound: nat, depth: nat, a: Annotation, v: Value)
    requires PlainEnvironment(env) && DefaultsExact(env, bound) && Plain(env, a) && a.MappingA?
    requires InstancesExact(env, bound, v) && Validate(env, depth, a, v).Ok?
    ensures Exact(env, bound + depth, a, Validate(env, depth, a, v).value)
    decreases depth, a, 0
  {
    var parts := ByPair(env, depth, a, v.entries);
    CollectIsAll(parts);
    var pairs := Collect(parts).value;
    var kept := DictOf(pairs);
    DictIsDistinct(pairs);
    forall j | 0 <= j < |pairs|
      ensures Exact(env, bound + depth, a.key, pairs[j].0) && Exact(env, bound + depth, a.element, pairs[j].1)
    {
      assert parts[j] == Ok(pairs[j]);
      ValidatedIsExact(env, bound, depth, a.key, v.entries[j].0);
      ValidatedIsExact(env, bound, depth, a.element, v.entries[j].1);
    }
    forall i | 0 <= i < |kept|
      ensures Hashable(kept[i].0)
      ensures Exact(env, bound + depth, a.key, kept[i].0) && Exact(env, bound + depth, a.element, kept[i].1)
    {
      assert ComesFrom(pairs, kept[i]);
      var j :| 0 <= j < |pairs| && kept[i].0 == pairs[j].0;
      var l :| 0 <= l < |pairs| && kept[i].1 == pairs[l].1;
    }
  }

  lemma {:induction false} TypedDictIsExact(env: Environment, bound: nat, depth: nat, a: Annotation, v: Value)
    requires PlainEnvironment(env) && DefaultsExact(env, bound) && Plain(env, a) && a.TypedDictA?
    requires InstancesExact(env, bound, v) && Validate(env, depth, a, v).Ok?
    ensures Exact(env, bound + depth, a, Validate(env, depth, a, v).value)
    decreases depth, a, 0
  {
    var parts := ByMember(env, depth, a, v.entries);
    CollectIsAll(parts);
    var pairs := Collect(parts).value;
    PairsAreMembers(env, depth, a, v.entries);
    PresentIsDistinct(Names(a.members), pairs);
    DictOfDistinct(Present(pairs));
    SamePairs(env, depth, a, v.entries, Present(pairs));
    forall i | 0 <= i < |a.members|
      ensures match Lookup(Present(pairs), Str(a.members[i].name))
              case None => !a.members[i].required
              case Some(value) => Exact(env, bound + depth, a.members[i].annotation, value)
    {
      assert parts[i] == Ok(pairs[i]);
      MembersFound(Names(a.members), pairs, i);
      if pairs[i].Some? {
        LookupInstances(env, bound, v.entries, Str(a.members[i].name));
        ValidatedIsExact(env, bound, depth, a.members[i].annotation, Lookup(v.entries, Str(a.members[i].name)).value);
      }
    }
  }

  lemma {:induction false} ConstructedIsExact(env: Environment, bound: nat, depth: nat, cls: string,
                                              entries: seq<(Value, Value)>)
    requires PlainEnvironment(env) && DefaultsExact(env, bound) && cls in env.classes
    requires InstancesExact(env, bound, Dict(entries)) && Construct(env, depth, cls, entries).Ok?
    ensures Exact(env, bound + depth + 1, StateA(cls), Construct(env, depth, cls, entries).value)
    decreases depth
  {
    var fields := env.classes[cls];
    var parts := ByField(env, depth, fields, entries);
    CollectIsAll(parts);
    var values := Collect(parts).value;
    assert PlainClass(env, fields);
    forall i | 0 <= i < |fields| ensures Exact(env, bound + depth, fields[i].annotation, values[i]) {
      assert parts[i] == Ok(values[i]);
      ValidatedIsExact(env, bound, depth, fields[i].annotation, Source(fields[i], entries));
    }
  }

  /** An update of an exactly typed instance is exactly typed, although it validates the changed fields only. */
  lemma ReplacedIsExact(env: Environment, bound: nat, depth: nat, v: Value, arguments: seq<(string, Value)>)
    requires PlainEnvironment(env) && DefaultsExact(env, bound)
    requires v.State? && Exact(env, bound, StateA(v.cls), v)
    requires forall i | 0 <= i < |arguments| :: InstancesExact(env, bound, arguments[i].1)
    requires Replace(env, depth, v, arguments).Ok?
    ensures Exact(env, bound + depth + 1, StateA(v.cls), Replace(env, depth, v, arguments).value)
  {
    var fields := env.classes[v.cls];
    var parts := ReplaceFields(env, depth, v, arguments);
    CollectIsAll(parts);
    var values := Collect(parts).value;
    forall i | 0 <= i < |fields| ensures Exact(env, bound + depth, fields[i].annotation, values[i]) {
      assert parts[i] == Ok(values[i]);
      FieldIsExact(env, bound, v, i);
      ExactDeeper(env, bound - 1, bound, fields[i].annotation, v.fields[i]);
      ReplacedFieldIsExact(env, bound, depth, v, arguments, i);
    }
  }

  lemma ReplacedFieldIsExact(env: Environment, bound: nat, depth: nat, v: Value, arguments: seq<(string, Value)>,
                             i: nat)
    requires PlainEnvironment(env) && DefaultsExact(env, bound) && IsInstance(env, v) && i < |v.fields|
    requires Plain(env, env.classes[v.cls][i].annotation)
    requires Exact(env, bound, env.classes[v.cls][i].annotation, v.fields[i])
    requires forall k | 0 <= k < |arguments| :: InstancesExact(env, bound, arguments[k].1)
    requires ReplaceFields(env, depth, v, arguments)[i].Ok?
    ensures Exact(env, bound + depth, env.classes[v.cls][i].annotation,
                  ReplaceFields(env, depth, v, arguments)[i].value)
  {
    var field := env.classes[v.cls][i];
    if Update(field, arguments).Some? {
      var k := UpdateIsArgument(field, arguments);
      ValidatedIsExact(env, bound, depth, field.annotation, arguments[k].1);
    } else {
      ExactDeeper(env, bound, bound + depth, field.annotation, v.fields[i]);
    }
  }

  // ----- The law --------------------------------------------------------------------------------

  /** `validate(to_mapping(s)) == s` for every constructed instance `s`, given enough recursion depth, if and
      only if no field in it holds `Missing` in spite of a default. */
  lemma ExportedStateValidatesBack(env: Environment, bound: nat, depth: nat, cls: string,
                                   entries: seq<(Value, Value)>, more: nat)
    requires PlainEnvironment(env) && DefaultsExact(env, bound) && cls in env.classes
    requires InstancesExact(env, bound, Dict(entries)) && Construct(env, depth, cls, entries).Ok?
    requires more >= bound + depth + 1
    ensures var s := Construct(env, depth, cls, entries).value;
            && Validate(env, more, StateA(cls), s) == Ok(s)
            && (Validate(env, more, StateA(cls), Export(env, s)) == Ok(s) <==> NoStrayMissing(env, s))
  {
    ConstructedIsExact(env, bound, depth, cls, entries);
    var s := Construct(env, depth, cls, entries).value;
    RoundTripIff(env, bound + depth + 1, more, StateA(cls), s, true);
    RoundTripIff(env, bound + depth + 1, more, StateA(cls), s, false);
  }

  lemma OneFieldConstructed(env: Environment, depth: nat, cls: string, entries: seq<(Value, Value)>, r: Value)
    requires cls in env.classes && |env.classes[cls]| == 1
    requires var field := env.classes[cls][0]; Validate(env, depth, field.annotation, Source(field, entries)) == Ok(r)
    ensures Construct(env, depth, cls, entries) == Ok(State(cls, [r]))
  {
    CollectOks(ByField(env, depth, env.classes[cls], entries), [r]);
  }

  /** `int | Missing`. */
  ghost function IntOrMissing(): Annotation {
    UnionA([IntA, MissingA], (v: Value) => true)
  }

  lemma IntOrMissingAccepts(env: Environment, depth: nat)
    ensures Validate(env, depth, IntOrMissing(), Missing) == Ok(Missing)
    ensures Validate(env, depth, IntOrMissing(), Int(5)) == Ok(Int(5))
  {
    var absent := ByAlternative(env, depth, IntOrMissing(), Missing);
    assert absent[0] == Err(WrongType) && absent[1] == Ok(Missing);
    FirstOkAgrees(absent, 1, Missing);
    var present := ByAlternative(env, depth, IntOrMissing(), Int(5));
    assert present[0] == Ok(Int(5));
    FirstOkAgrees(present, 0, Int(5));
  }

  ghost function FiveByDefault(): Field {
    Field("x", None, IntOrMissing(), Int(5))
  }

  lemma NothingExported(env: Environment)
    requires "C" in env.classes && env.classes["C"] == [FiveByDefault()]
    ensures Export(env, State("C", [Missing])) == Dict([])
  {
    var exported := ExportFields(env, State("C", [Missing]));
    assert exported == [None];
    assert Present(exported[..0]) == [];
    assert DictOf([]) == [];
  }

  lemma SourcesOfField()
    ensures Source(FiveByDefault(), [(Str("x"), Missing)]) == Missing
    ensures Source(FiveByDefault(), []) == Int(5)
  {
    assert Same(Str("x"), Str("x"));
  }

  /** A class with the field `x: int | Missing = 5`, and the instance whose `x` is `Missing`: its export is
      empty, and validating that gives the default instead. */
  lemma MissingInSpiteOfDefaultIsLost(env: Environment)
    requires "C" in env.classes && env.classes["C"] == [FiveByDefault()]
    ensures Construct(env, 0, "C", [(Str("x"), Missing)]) == Ok(State("C", [Missing]))
    ensures Export(env, State("C", [Missing])) == Dict([])
    ensures Validate(env, 1, StateA("C"), Dict([])) == Ok(State("C", [Int(5)]))
  {
    NothingExported(env);
    IntOrMissingAccepts(env, 0);
    SourcesOfField();
    OneFieldConstructed(env, 0, "C", [(Str("x"), Missing)], Missing);
    OneFieldConstructed(env, 0, "C", [], Int(5));
    MappingIsConstructed(env, 1, "C", []);
  }

  // ----- Values without an annotation -----------------------------------------------------------

  /** There are no State instances, tuples or sets in the value, outside the keys of dictionaries. */
  ghost predicate OnlyListsAndDicts(env: Environment, v: Value)
    decreases v
  {
    match v
    case State(_, _) => !IsInstance(env, v)
    case Tuple(_) => false
    case Set(_) => false
    case List(items) => forall i | 0 <= i < |items| :: OnlyListsAndDicts(env, items[i])
    case Dict(entries) => forall i | 0 <= i < |entries| :: OnlyListsAndDicts(env, entries[i].1)
    case _ => true
  }

  /** Under `Any` exactly those values come back. */
  lemma {:induction false} AnyComesBackIff(env: Environment, depth: nat, v: Value)
    ensures Validate(env, depth, AnyA, Export(env, v)) == Ok(v) <==> OnlyListsAndDicts(env, v)
    decreases v
  {
    match v
    case List(items) =>
      forall i | 0 <= i < |items| ensures Export(env, items[i]) == items[i] <==> OnlyListsAndDicts(env, items[i]) {
        AnyComesBackIff(env, depth, items[i]);
      }
      if OnlyListsAndDicts(env, v) {
        assert ExportAll(env, v) == items;
      } else {
        var i :| 0 <= i < |items| && !OnlyListsAndDicts(env, items[i]);
        assert ExportAll(env, v)[i] != items[i];
      }
    case Dict(entries) =>
      forall i | 0 <= i < |entries|
        ensures Export(env, entries[i].1) == entries[i].1 <==> OnlyListsAndDicts(env, entries[i].1)
      {
        AnyComesBackIff(env, depth, entries[i].1);
      }
      var exported := Export(env, v).entries;
      if OnlyListsAndDicts(env, v) {
        assert exported == entries;
      } else {
        var i :| 0 <= i < |entries| && !OnlyListsAndDicts(env, entries[i].1);
        assert exported[i] != entries[i];
      }
    case _ =>
  }
}
