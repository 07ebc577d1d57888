/**
State instances over whole programs, with those inside other ones: what constructions and updates lead to is
exactly typed, so that it can be exported and read back.
*/
module Programs {
  import opened Wrappers
  import opened Values
  import opened Annotations
  import opened States
  import opened RoundTrip

  // ----- Instances inside values ----------------------------------------------------------------

  lemma {:induction false} InstancesDeeper(env: Environment, bound: nat, more: nat, v: Value)
    requires InstancesExact(env, bound, v) && bound <= more
    ensures InstancesExact(env, more, v)
    decreases v
  {
    match v
    case State(cls, _) => ExactDeeper(env, bound, more, StateA(cls), v);
    case Dict(entries) =>
      forall i | 0 <= i < |entries|
        ensures InstancesExact(env, more, entries[i].0) && InstancesExact(env, more, entries[i].1)
      {
        InstancesDeeper(env, bound, more, entries[i].0);
        InstancesDeeper(env, bound, more, entries[i].1);
      }
    case Tuple(items) =>
      forall i | 0 <= i < |items| ensures InstancesExact(env, more, items[i]) {
        InstancesDeeper(env, bound, more, items[i]);
      }
    case List(items) =>
      forall i | 0 <= i < |items| ensures InstancesExact(env, more, items[i]) {
        InstancesDeeper(env, bound, more, items[i]);
      }
    case Set(items) =>
      forall i | 0 <= i < |items| ensures InstancesExact(env, more, items[i]) {
        InstancesDeeper(env, bound, more, items[i]);
      }
    case _ =>
  }

  lemma MemberOfEntry(members: seq<Member>, entries: seq<(Value, Value)>, i: nat) returns (j: nat)
    requires entries == Present(MemberPairs(members, entries)) && i < |entries|
    ensures j < |members| && entries[i].0 == Str(members[j].name)
    ensures Lookup(entries, Str(members[j].name)) == Some(entries[i].1)
  {
    var pairs := MemberPairs(members, entries);
    PresentIsSome(pairs);
    assert entries[i] in Present(pairs);
    j :| j < |pairs| && pairs[j] == Some(entries[i]);
  }

  /** In an exactly typed value all instances are exactly typed. */
  lemma {:induction false} ExactInside(env: Environment, bound: nat, a: Annotation, v: Value)
    requires PlainEnvironment(env) && Plain(env, a) && Exact(env, bound, a, v)
    ensures InstancesExact(env, bound, v)
    decreases bound, a, 1
  {
    match a
    case TupleA(elements) =>
      forall i | 0 <= i < |elements| ensures InstancesExact(env, bound, v.items[i]) {
        ExactInside(env, bound, elements[i], v.items[i]);
      }
    case SequenceA(_) => ElementsInside(env, bound, a, v);
    case SetA(_) => ElementsInside(env, bound, a, v);
    case MappingA(_, _) => EntriesInside(env, bound, a, v);
    case TypedDictA(_) => MembersInside(env, bound, a, v);
    case UnionA(alternatives, _) =>
      var i :| 0 <= i < |alternatives| && Exact(env, bound, alternatives[i], v);
      ExactInside(env, bound, alternatives[i], v);
    case AliasA(name) =>
      ExactInside(env, bound - 1, env.aliases[name], v);
      InstancesDeeper(env, bound - 1, bound, v);
    case VerifiedA(base, _) => ExactInside(env, bound, base, v);
    case _ =>
  }

  lemma {:induction false} ElementsInside(env: Environment, bound: nat, a: Annotation, v: Value)
    requires PlainEnvironment(env) && Plain(env, a) && Exact(env, bound, a, v) && (a.SequenceA? || a.SetA?)
    ensures InstancesExact(env, bound, v)
    decreases bound, a, 0
  {
    forall i | 0 <= i < |v.items| ensures InstancesExact(env, bound, v.items[i]) {
      ExactInside(env, bound, a.element, v.items[i]);
    }
  }

  lemma {:induction false} EntriesInside(env: Environment, bound: nat, a: Annotation, v: Value)
    requires PlainEnvironment(env) && Plain(env, a) && Exact(env, bound, a, v) && a.MappingA?
    ensures InstancesExact(env, bound, v)
    decreases bound, a, 0
  {
    forall i | 0 <= i < |v.entries|
      ensures InstancesExact(env, bound, v.entries[i].0) && InstancesExact(env, bound, v.entries[i].1)
    {
      ExactInside(env, bound, a.key, v.entries[i].0);
      ExactInside(env, bound, a.element, v.entries[i].1);
    }
  }

  lemma {:induction false} MembersInside(env: Environment, bound: nat, a: Annotation, v: Value)
    requires PlainEnvironment(env) && Plain(env, a) && Exact(env, bound, a, v) && a.TypedDictA?
    ensures InstancesExact(env, bound, v)
    decreases bound, a, 0
  {
    forall i | 0 <= i < |v.entries|
      ensures InstancesExact(env, bound, v.entries[i].0) && InstancesExact(env, bound, v.entries[i].1)
    {
      var j := MemberOfEntry(a.members, v.entries, i);
      ExactInside(env, bound, a.members[j].annotation, v.entries[i].1);
    }
  }

  // ----- Programs -------------------------------------------------------------------------------

  lemma {:induction false} InsideIsExact(env: Environment, bound: nat, whole: Value, v: Value)
    requires PlainEnvironment(env) && InstancesExact(env, bound, whole) && Inside(whole, v)
    ensures InstancesExact(env, bound, v)
    decreases whole
  {
    if whole != v {
      match whole
      case State(cls, fields) =>
        var i :| 0 <= i < |fields| && Inside(fields[i], v);
        FieldInstances(env, bound, whole, i);
        InsideIsExact(env, bound, fields[i], v);
      case Dict(entries) =>
        var i :| 0 <= i < |entries| && (Inside(entries[i].0, v) || Inside(entries[i].1, v));
        InsideIsExact(env, bound, if Inside(entries[i].0, v) then entries[i].0 else entries[i].1, v);
      case Tuple(items) =>
        var i :| 0 <= i < |items| && Inside(items[i], v);
        InsideIsExact(env, bound, items[i], v);
      case List(items) =>
        var i :| 0 <= i < |items| && Inside(items[i], v);
        InsideIsExact(env, bound, items[i], v);
      case Set(items) =>
        var i :| 0 <= i < |items| && Inside(items[i], v);
        InsideIsExact(env, bound, items[i], v);
    }
  }

  lemma FieldInstances(env: Environment, bound: nat, v: Value, i: nat)
    requires PlainEnvironment(env) && v.State? && InstancesExact(env, bound, v) && i < |v.fields|
    ensures InstancesExact(env, bound, v.fields[i])
  {
    assert PlainClass(env, env.classes[v.cls]);
    ExactInside(env, bound - 1, env.classes[v.cls][i].annotation, v.fields[i]);
    InstancesDeeper(env, bound - 1, bound, v.fields[i]);
  }

  ghost predicate AllExact(env: Environment, bound: nat, made: seq<Value>) {
    forall m <- made :: InstancesExact(env, bound, m)
  }

  lemma {:induction false} BuiltIsExact(env: Environment, bound: nat, made: seq<Value>, v: Value)
    requires PlainEnvironment(env) && BuiltFrom(made, v) && AllExact(env, bound, made)
    ensures InstancesExact(env, bound, v)
    decreases v
  {
    if InsideAny(made, v) {
      var k :| 0 <= k < |made| && Inside(made[k], v);
      InsideIsExact(env, bound, made[k], v);
    } else {
      match v
      case Dict(entries) =>
        forall i | 0 <= i < |entries|
          ensures InstancesExact(env, bound, entries[i].0) && InstancesExact(env, bound, entries[i].1)
        {
          BuiltIsExact(env, bound, made, entries[i].0);
          BuiltIsExact(env, bound, made, entries[i].1);
        }
      case Tuple(items) =>
        forall i | 0 <= i < |items| ensures InstancesExact(env, bound, items[i]) {
          BuiltIsExact(env, bound, made, items[i]);
        }
      case List(items) =>
        forall i | 0 <= i < |items| ensures InstancesExact(env, bound, items[i]) {
          BuiltIsExact(env, bound, made, items[i]);
        }
      case Set(items) =>
        forall i | 0 <= i < |items| ensures InstancesExact(env, bound, items[i]) {
          BuiltIsExact(env, bound, made, items[i]);
        }
      case _ =>
    }
  }

  /** The recursion depth that all steps together were given. */
  ghost function Depths(actions: seq<Action>): nat {
    if actions == [] then 0
    else
      var n := |actions| - 1;
      Depths(actions[..n]) + actions[n].depth + 1
  }

  lemma DefaultsDeeper(env: Environment, bound: nat, more: nat)
    requires DefaultsExact(env, bound) && bound <= more
    ensures DefaultsExact(env, more)
  {
    forall cls <- env.classes, i | 0 <= i < |env.classes[cls]|
      ensures InstancesExact(env, more, env.classes[cls][i].default)
    {
      InstancesDeeper(env, bound, more, env.classes[cls][i].default);
    }
  }

  lemma ChangeIsExact(env: Environment, bound: nat, made: seq<Value>, a: Action)
    requires PlainEnvironment(env) && DefaultsExact(env, bound) && AllExact(env, bound, made) && Allowed(made, a)
    requires a.Change?
    ensures AllExact(env, bound + a.depth + 1, MadeBy(env, a))
  {
    BuiltIsExact(env, bound, made, a.subject);
    forall k | 0 <= k < |a.arguments| ensures InstancesExact(env, bound, a.arguments[k].1) {
      BuiltIsExact(env, bound, made, a.arguments[k].1);
    }
    if IsInstance(env, a.subject) {
      UpdatedInstance(env, bound, a.depth, a.subject, a.arguments);
    }
  }

  lemma MakeIsExact(env: Environment, bound: nat, made: seq<Value>, a: Action)
    requires PlainEnvironment(env) && DefaultsExact(env, bound) && AllExact(env, bound, made) && Allowed(made, a)
    requires a.Make?
    ensures AllExact(env, bound + a.depth + 1, MadeBy(env, a))
  {
    BuiltIsExact(env, bound, made, Dict(a.entries));
    if a.cls in env.classes {
      NewInstance(env, bound, a.depth, a.cls, a.entries);
    }
  }

  lemma NewInstance(env: Environment, bound: nat, depth: nat, cls: string, entries: seq<(Value, Value)>)
    requires PlainEnvironment(env) && DefaultsExact(env, bound) && cls in env.classes
    requires InstancesExact(env, bound, Dict(entries))
    ensures AllExact(env, bound + depth + 1, Results(Construct(env, depth, cls, entries)))
  {
    var r := Construct(env, depth, cls, entries);
    if r.Ok? {
      ConstructedIsExact(env, bound, depth, cls, entries);
    }
    ResultIsExact(env, bound + depth + 1, r);
  }

  lemma UpdatedInstance(env: Environment, bound: nat, depth: nat, v: Value, arguments: seq<(string, Value)>)
    requires PlainEnvironment(env) && DefaultsExact(env, bound) && IsInstance(env, v) && InstancesExact(env, bound, v)
    requires forall i | 0 <= i < |arguments| :: InstancesExact(env, bound, arguments[i].1)
    ensures AllExact(env, bound + depth + 1, Results(Replace(env, depth, v, arguments)))
  {
    var r := Replace(env, depth, v, arguments);
    if r.Ok? {
      ReplacedIsExact(env, bound, depth, v, arguments);
    }
    ResultIsExact(env, bound + depth + 1, r);
  }

  lemma ResultIsExact(env: Environment, bound: nat, r: Validated)
    requires r.Ok? ==> InstancesExact(env, bound, r.value)
    ensures AllExact(env, bound, Results(r))
  {
  }

  lemma AllOfBoth(env: Environment, bound: nat, some: seq<Value>, more: seq<Value>)
    requires AllExact(env, bound, some) && AllExact(env, bound, more)
    ensures AllExact(env, bound, some + more)
  {
  }

  lemma AllDeeper(env: Environment, bound: nat, more: nat, made: seq<Value>)
    requires AllExact(env, bound, made) && bound <= more
    ensures AllExact(env, more, made)
  {
    forall m <- made ensures InstancesExact(env, more, m) {
      InstancesDeeper(env, bound, more, m);
    }
  }

  lemma StepKeepsExact(env: Environment, bound: nat, made: seq<Value>, a: Action)
    requires PlainEnvironment(env) && DefaultsExact(env, bound) && AllExact(env, bound, made) && Allowed(made, a)
    ensures AllExact(env, bound + a.depth + 1, made + MadeBy(env, a))
  {
    AllDeeper(env, bound, bound + a.depth + 1, made);
    if a.Make? {
      MakeIsExact(env, bound, made, a);
    } else {
      ChangeIsExact(env, bound, made, a);
    }
    AllOfBoth(env, bound + a.depth + 1, made, MadeBy(env, a));
  }

  lemma {:induction false} ProgramIsExact(env: Environment, bound: nat, actions: seq<Action>)
    requires PlainEnvironment(env) && DefaultsExact(env, bound) && IsProgram(env, actions)
    ensures AllExact(env, bound + Depths(actions), Instances(env, actions))
    decreases |actions|
  {
    if actions != [] {
      var n := |actions| - 1;
      var before := bound + Depths(actions[..n]);
      ProgramIsExact(env, bound, actions[..n]);
      DefaultsDeeper(env, bound, before);
      StepKeepsExact(env, before, Instances(env, actions[..n]), actions[n]);
    }
  }

  /** In every program, for every instance that it makes and every instance inside one: `validate(to_mapping(s)) == s`,
      given enough recursion depth, if and only if no field in it holds `Missing` in spite of a default; and
      validating `s` itself gives `s`. */
  lemma ProgramsRoundTrip(env: Environment, bound: nat, actions: seq<Action>, s: Value, more: nat)
    requires PlainEnvironment(env) && DefaultsExact(env, bound) && IsProgram(env, actions)
    requires s.State? && InsideAny(Instances(env, actions), s) && more >= bound + Depths(actions)
    ensures Validate(env, more, StateA(s.cls), s) == Ok(s)
    ensures Validate(env, more, StateA(s.cls), Export(env, s)) == Ok(s) <==> NoStrayMissing(env, s)
  {
    ProgramIsExact(env, bound, actions);
    BuiltIsExact(env, bound + Depths(actions), Instances(env, actions), s);
    RoundTripIff(env, bound + Depths(actions), more, StateA(s.cls), s, true);
    RoundTripIff(env, bound + Depths(actions), more, StateA(s.cls), s, false);
  }
}
