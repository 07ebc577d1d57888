/**
State instances: construction, update, and export to plain mappings and back.
*/
module States {
  import opened Wrappers
  import opened Values
  import opened Annotations
  import opened Stability
  import Soundness

  // ----- The code -------------------------------------------------------------------------------

  /** The key a field is exported under. */
  function ExportKey(field: Field): Value {
    Str(if field.alias.Some? then field.alias.value else field.name)
  }

  /** `_recursive_mapping` and, for State values, `to_mapping`: states become dictionaries without their
      missing fields, all iterables become lists, everything else stays as it is. */
  function Export(env: Environment, v: Value): Value
    decreases v, 1
  {
    match v
    case State(cls, fields) =>
      if IsInstance(env, v) then Dict(DictOf(Present(ExportFields(env, v)))) else v
    case Dict(entries) =>
      Dict(seq(|entries|, i requires 0 <= i < |entries| => (entries[i].0, Export(env, entries[i].1))))
    case Tuple(items) => List(ExportAll(env, v))
    case List(items) => List(ExportAll(env, v))
    case Set(items) => List(ExportAll(env, v))
    case _ => v
  }

  function ExportAll(env: Environment, v: Value): seq<Value>
    requires v.Tuple? || v.List? || v.Set?
    decreases v, 0
  {
    seq(|v.items|, i requires 0 <= i < |v.items| => Export(env, v.items[i]))
  }

  function ExportFields(env: Environment, v: Value): seq<Option<(Value, Value)>>
    requires IsInstance(env, v)
    decreases v, 0
  {
    var fields := env.classes[v.cls];
    seq(|fields|, i requires 0 <= i < |fields| =>
      if v.fields[i].Missing? then None else Some((ExportKey(fields[i]), Export(env, v.fields[i]))))
  }

  /** What `__replace__` was asked to do to a field: the last argument under its name or alias, unless that
      is `Missing`. */
  function Update(field: Field, arguments: seq<(string, Value)>): Option<Value>
    decreases |arguments|
  {
    if arguments == [] then None
    else
      var n := |arguments| - 1;
      if arguments[n].0 == field.name || field.alias == Some(arguments[n].0) then
        if arguments[n].1.Missing? then None else Some(arguments[n].1)
      else Update(field, arguments[..n])
  }

  /** An instance of a known class has a value for each of its fields. */
  predicate IsInstance(env: Environment, v: Value) {
    v.State? && v.cls in env.classes && |env.classes[v.cls]| == |v.fields|
  }

  function ReplaceFields(env: Environment, depth: nat, v: Value, arguments: seq<(string, Value)>): seq<Validated>
    requires IsInstance(env, v)
  {
    var fields := env.classes[v.cls];
    seq(|fields|, i requires 0 <= i < |fields| =>
      match Update(fields[i], arguments)
      case None => Ok(v.fields[i])
      case Some(update) => Validate(env, depth, fields[i].annotation, update))
  }

  /** `__replace__`: only the updated fields are validated. */
  function Replace(env: Environment, depth: nat, v: Value, arguments: seq<(string, Value)>): Validated
    requires IsInstance(env, v)
  {
    match Collect(ReplaceFields(env, depth, v, arguments))
    case Err(error) => Err(error)
    case Ok(values) => Ok(State(v.cls, values))
  }

  // ----- Every reachable instance satisfies its annotations -------------------------------------

  ghost predicate ProperDeclarations(env: Environment) {
    && Soundness.ProperAliases(env)
    && forall cls <- env.classes :: forall f <- env.classes[cls] :: Soundness.Proper(f.annotation)
  }

  /** No field value of the instance is ever answered with no by its own annotation. */
  ghost predicate FieldsChecked(env: Environment, v: Value) {
    && IsInstance(env, v)
    && forall i | 0 <= i < |v.fields| :: Soundness.NeverNo(env, env.classes[v.cls][i].annotation, v.fields[i])
  }

  lemma ConstructedIsChecked(env: Environment, depth: nat, cls: string, entries: seq<(Value, Value)>)
    requires ProperDeclarations(env) && cls in env.classes && Construct(env, depth, cls, entries).Ok?
    ensures FieldsChecked(env, Construct(env, depth, cls, entries).value)
  {
    var fields := env.classes[cls];
    var parts := ByField(env, depth, fields, entries);
    CollectIsAll(parts);
    var values := Collect(parts).value;
    forall i | 0 <= i < |fields| ensures Soundness.NeverNo(env, fields[i].annotation, values[i]) {
      assert parts[i] == Ok(values[i]);
      assert fields[i] in fields;
      Soundness.ValidatedIsChecked(env, depth, fields[i].annotation, Source(fields[i], entries));
    }
  }

  lemma ReplacedIsChecked(env: Environment, depth: nat, v: Value, arguments: seq<(string, Value)>)
    requires ProperDeclarations(env) && FieldsChecked(env, v) && Replace(env, depth, v, arguments).Ok?
    ensures FieldsChecked(env, Replace(env, depth, v, arguments).value)
  {
    var fields := env.classes[v.cls];
    var parts := ReplaceFields(env, depth, v, arguments);
    CollectIsAll(parts);
    var values := Collect(parts).value;
    forall i | 0 <= i < |fields| ensures Soundness.NeverNo(env, fields[i].annotation, values[i]) {
      assert parts[i] == Ok(values[i]);
      assert fields[i] in fields;
      var update := Update(fields[i], arguments);
      if update.Some? {
        Soundness.ValidatedIsChecked(env, depth, fields[i].annotation, update.value);
      }
    }
  }

  // ----- Instances inside other values ----------------------------------------------------------

  /** Every instance anywhere in the value has only field values that satisfy their annotations. */
  ghost predicate AllChecked(env: Environment, v: Value)
    decreases v
  {
    match v
    case State(_, fields) => FieldsChecked(env, v) && forall i | 0 <= i < |fields| :: AllChecked(env, fields[i])
    case Dict(entries) =>
      forall i | 0 <= i < |entries| :: AllChecked(env, entries[i].0) && AllChecked(env, entries[i].1)
    case Tuple(items) => forall i | 0 <= i < |items| :: AllChecked(env, items[i])
    case List(items) => forall i | 0 <= i < |items| :: AllChecked(env, items[i])
    case Set(items) => forall i | 0 <= i < |items| :: AllChecked(env, items[i])
    case _ => true
  }

  /** User functions in the annotation make no instances that do not satisfy their annotations. */
  ghost predicate KeepsInstances(env: Environment, a: Annotation)
    decreases a
  {
    match a
    case TupleA(elements) => forall i | 0 <= i < |elements| :: KeepsInstances(env, elements[i])
    case SequenceA(element) => KeepsInstances(env, element)
    case SetA(element) => KeepsInstances(env, element)
    case MappingA(key, element) => KeepsInstances(env, key) && KeepsInstances(env, element)
    case TypedDictA(members) => forall i | 0 <= i < |members| :: KeepsInstances(env, members[i].annotation)
    case UnionA(alternatives, _) => forall i | 0 <= i < |alternatives| :: KeepsInstances(env, alternatives[i])
    case VerifiedA(base, _) => KeepsInstances(env, base)
    case ValidatedA(base, validator) =>
      && KeepsInstances(env, base)
      && forall v: Value {:trigger validator(v)} | AllChecked(env, v) && validator(v).Ok? ::
           AllChecked(env, validator(v).value)
    case _ => true
  }

  /** The same for all named types, and defaults are no such instances either. */
  ghost predicate KeepsAllInstances(env: Environment) {
    && ProperDeclarations(env)
    && (forall name <- env.aliases :: KeepsInstances(env, env.aliases[name]))
    && (forall cls <- env.classes :: forall i | 0 <= i < |env.classes[cls]| ::
          KeepsInstances(env, env.classes[cls][i].annotation) && AllChecked(env, env.classes[cls][i].default))
  }

  /** Validation takes over the instances it is given and makes only new ones that satisfy their annotations,
      however deep inside the result they are. */
  lemma {:induction false} ValidationKeepsInstances(env: Environment, depth: nat, a: Annotation, v: Value)
    requires KeepsAllInstances(env) && KeepsInstances(env, a) && AllChecked(env, v) && Validate(env, depth, a, v).Ok?
    ensures AllChecked(env, Validate(env, depth, a, v).value)
    decreases depth, a, 2
  {
    match a
    case TupleA(elements) =>
      var items := SequenceItems(v).value;
      var parts := ByPosition(env, depth, a, items);
      CollectIsAll(parts);
      forall i | 0 <= i < |items| ensures AllChecked(env, Collect(parts).value[i]) {
        assert parts[i] == Ok(Collect(parts).value[i]);
        ValidationKeepsInstances(env, depth, elements[i], items[i]);
      }
    case SequenceA(_) => ElementsKeepInstances(env, depth, a, SequenceItems(v).value);
    case SetA(_) => SetKeepsInstances(env, depth, a, v);
    case MappingA(_, _) => MappingKeepsInstances(env, depth, a, v);
    case TypedDictA(_) => TypedDictKeepsInstances(env, depth, a, v);
    case UnionA(alternatives, _) =>
      var k := FirstIsChosen(env, depth, a, v);
      ValidationKeepsInstances(env, depth, alternatives[k], v);
    case StateA(cls) =>
      if v.Dict? {
        ConstructionKeepsInstances(env, depth - 1, cls, v.entries);
      }
    case AliasA(name) => ValidationKeepsInstances(env, depth - 1, env.aliases[name], v);
    case VerifiedA(base, _) => ValidationKeepsInstances(env, depth, base, v);
    case ValidatedA(base, validator) => ValidationKeepsInstances(env, depth, base, validator(v).value);
    case _ =>
  }

  lemma {:induction false} ElementsKeepInstances(env: Environment, depth: nat, a: Annotation, items: seq<Value>)
    requires KeepsAllInstances(env) && KeepsInstances(env, a) && (a.SequenceA? || a.SetA?)
    requires forall i | 0 <= i < |items| :: AllChecked(env, items[i])
    requires Collect(ByElement(env, depth, a, items)).Ok?
    ensures forall r <- Collect(ByElement(env, depth, a, items)).value :: AllChecked(env, r)
    decreases depth, a, 0
  {
    var parts := ByElement(env, depth, a, items);
    CollectIsAll(parts);
    var results := Collect(parts).value;
    forall i | 0 <= i < |results| ensures AllChecked(env, results[i]) {
      assert parts[i] == Ok(results[i]);
      ValidationKeepsInstances(env, depth, a.element, items[i]);
    }
  }

  lemma {:induction false} SetKeepsInstances(env: Environment, depth: nat, a: Annotation, v: Value)
    requires KeepsAllInstances(env) && KeepsInstances(env, a) && a.SetA?
    requires AllChecked(env, v) && Validate(env, depth, a, v).Ok?
    ensures AllChecked(env, Validate(env, depth, a, v).value)
    decreases depth, a, 1
  {
    var items := IterableItems(v).value;
    forall i | 0 <= i < |items| ensures AllChecked(env, items[i]) {
      assert v.Dict? ==> items[i] == v.entries[i].0;
    }
    ElementsKeepInstances(env, depth, a, items);
    var kept := Dedup(Collect(ByElement(env, depth, a, items)).value);
    assert forall i | 0 <= i < |kept| :: kept[i] in kept;
  }

  lemma {:induction false} MappingKeepsInstances(env: Environment, depth: nat, a: Annotation, v: Value)
    requires KeepsAllInstances(env) && KeepsInstances(env, a) && a.MappingA?
    requires AllChecked(env, v) && Validate(env, depth, a, v).Ok?
    ensures AllChecked(env, Validate(env, depth, a, v).value)
    decreases depth, a, 0
  {
    var parts := ByPair(env, depth, a, v.entries);
    CollectIsAll(parts);
    var pairs := Collect(parts).value;
    forall j | 0 <= j < |pairs| ensures AllChecked(env, pairs[j].0) && AllChecked(env, pairs[j].1) {
      assert parts[j] == Ok(pairs[j]);
      ValidationKeepsInstances(env, depth, a.key, v.entries[j].0);
      ValidationKeepsInstances(env, depth, a.element, v.entries[j].1);
    }
    EntriesKeepInstances(env, pairs);
  }

  lemma EntriesKeepInstances(env: Environment, pairs: seq<(Value, Value)>)
    requires forall j | 0 <= j < |pairs| :: AllChecked(env, pairs[j].0) && AllChecked(env, pairs[j].1)
    ensures AllChecked(env, Dict(DictOf(pairs)))
  {
    DictIsDistinct(pairs);
    forall i | 0 <= i < |DictOf(pairs)|
      ensures AllChecked(env, DictOf(pairs)[i].0) && AllChecked(env, DictOf(pairs)[i].1)
    {
      assert ComesFrom(pairs, DictOf(pairs)[i]);
    }
  }

  lemma {:induction false} TypedDictKeepsInstances(env: Environment, depth: nat, a: Annotation, v: Value)
    requires KeepsAllInstances(env) && KeepsInstances(env, a) && a.TypedDictA?
    requires AllChecked(env, v) && Validate(env, depth, a, v).Ok?
    ensures AllChecked(env, Validate(env, depth, a, v).value)
    decreases depth, a, 0
  {
    var parts := ByMember(env, depth, a, v.entries);
    CollectIsAll(parts);
    var pairs := Collect(parts).value;
    forall i | 0 <= i < |pairs| && pairs[i].Some?
      ensures AllChecked(env, pairs[i].value.0) && AllChecked(env, pairs[i].value.1)
    {
      assert parts[i] == Ok(pairs[i]);
      var found := Lookup(v.entries, Str(a.members[i].name));
      ValidationKeepsInstances(env, depth, a.members[i].annotation, found.value);
    }
    PresentIsSome(pairs);
    forall j | 0 <= j < |Present(pairs)|
      ensures AllChecked(env, Present(pairs)[j].0) && AllChecked(env, Present(pairs)[j].1)
    {
      assert Present(pairs)[j] in Present(pairs);
    }
    EntriesKeepInstances(env, Present(pairs));
  }

  lemma SourceIsChecked(env: Environment, field: Field, entries: seq<(Value, Value)>)
    requires AllChecked(env, Dict(entries)) && AllChecked(env, field.default)
    ensures AllChecked(env, Source(field, entries))
  {
    assert Dict(entries).entries == entries;
  }

  lemma {:induction false} ConstructionKeepsInstances(env: Environment, depth: nat, cls: string,
                                                      entries: seq<(Value, Value)>)
    requires KeepsAllInstances(env) && cls in env.classes
    requires AllChecked(env, Dict(entries)) && Construct(env, depth, cls, entries).Ok?
    ensures AllChecked(env, Construct(env, depth, cls, entries).value)
    decreases depth + 1, StateA(cls), 0
  {
    var fields := env.classes[cls];
    var parts := ByField(env, depth, fields, entries);
    CollectIsAll(parts);
    var values := Collect(parts).value;
    forall i | 0 <= i < |fields| ensures AllChecked(env, values[i]) {
      assert parts[i] == Ok(values[i]);
      SourceIsChecked(env, fields[i], entries);
      ValidationKeepsInstances(env, depth, fields[i].annotation, Source(fields[i], entries));
    }
    ConstructedIsChecked(env, depth, cls, entries);
  }

  lemma ReplacementKeepsInstances(env: Environment, depth: nat, v: Value, arguments: seq<(string, Value)>)
    requires KeepsAllInstances(env) && v.State? && AllChecked(env, v) && Replace(env, depth, v, arguments).Ok?
    requires forall k | 0 <= k < |arguments| :: AllChecked(env, arguments[k].1)
    ensures AllChecked(env, Replace(env, depth, v, arguments).value)
  {
    var fields := env.classes[v.cls];
    var parts := ReplaceFields(env, depth, v, arguments);
    CollectIsAll(parts);
    var values := Collect(parts).value;
    forall i | 0 <= i < |fields| ensures AllChecked(env, values[i]) {
      assert parts[i] == Ok(values[i]);
      if Update(fields[i], arguments).Some? {
        var k := UpdateIsArgument(fields[i], arguments);
        ValidationKeepsInstances(env, depth, fields[i].annotation, arguments[k].1);
      }
    }
    ReplacedIsChecked(env, depth, v, arguments);
  }

  lemma {:induction false} UpdateIsArgument(field: Field, arguments: seq<(string, Value)>) returns (k: nat)
    requires Update(field, arguments).Some?
    ensures k < |arguments| && arguments[k].1 == Update(field, arguments).value
    decreases |arguments|
  {
    var n := |arguments| - 1;
    if arguments[n].0 == field.name || field.alias == Some(arguments[n].0) {
      k := n;
    } else {
      k := UpdateIsArgument(field, arguments[..n]);
    }
  }

  // ----- Programs -------------------------------------------------------------------------------

  /** A program over instances: each step constructs one, or updates one; a step that raises makes none. */
  datatype Action =
    | Make(cls: string, entries: seq<(Value, Value)>, depth: nat)
    | Change(subject: Value, arguments: seq<(string, Value)>, depth: nat)

  function Results(r: Validated): seq<Value> {
    if r.Ok? then [r.value] else []
  }

  ghost function MadeBy(env: Environment, a: Action): seq<Value> {
    match a
    case Make(cls, entries, depth) => if cls in env.classes then Results(Construct(env, depth, cls, entries)) else []
    case Change(subject, arguments, depth) =>
      if IsInstance(env, subject) then Results(Replace(env, depth, subject, arguments)) else []
  }

  ghost function Instances(env: Environment, actions: seq<Action>): seq<Value> {
    if actions == [] then []
    else
      var n := |actions| - 1;
      Instances(env, actions[..n]) + MadeBy(env, actions[n])
  }

  /** The value is this one, or a part of it at any depth. */
  ghost predicate Inside(whole: Value, v: Value)
    decreases whole
  {
    whole == v ||
    match whole
    case State(_, fields) => exists i :: 0 <= i < |fields| && Inside(fields[i], v)
    case Dict(entries) => exists i :: 0 <= i < |entries| && (Inside(entries[i].0, v) || Inside(entries[i].1, v))
    case Tuple(items) => exists i :: 0 <= i < |items| && Inside(items[i], v)
    case List(items) => exists i :: 0 <= i < |items| && Inside(items[i], v)
    case Set(items) => exists i :: 0 <= i < |items| && Inside(items[i], v)
    case _ => false
  }

  ghost predicate InsideAny(made: seq<Value>, v: Value) {
    exists k :: 0 <= k < |made| && Inside(made[k], v)
  }

  /** The value holds no other instances than these and those inside them. */
  ghost predicate BuiltFrom(made: seq<Value>, v: Value)
    decreases v
  {
    InsideAny(made, v) ||
    match v
    case State(_, _) => false
    case Dict(entries) =>
      forall i | 0 <= i < |entries| :: BuiltFrom(made, entries[i].0) && BuiltFrom(made, entries[i].1)
    case Tuple(items) => forall i | 0 <= i < |items| :: BuiltFrom(made, items[i])
    case List(items) => forall i | 0 <= i < |items| :: BuiltFrom(made, items[i])
    case Set(items) => forall i | 0 <= i < |items| :: BuiltFrom(made, items[i])
    case _ => true
  }

  /** Updates are of instances made before, or of any inside those; arguments hold no other instances. */
  ghost predicate Allowed(made: seq<Value>, a: Action) {
    match a
    case Make(_, entries, _) => BuiltFrom(made, Dict(entries))
    case Change(subject, arguments, _) =>
      InsideAny(made, subject) && forall k | 0 <= k < |arguments| :: BuiltFrom(made, arguments[k].1)
  }

  ghost predicate IsProgram(env: Environment, actions: seq<Action>) {
    actions != [] ==>
      var n := |actions| - 1;
      IsProgram(env, actions[..n]) && Allowed(Instances(env, actions[..n]), actions[n])
  }

  lemma {:induction false} InsideIsChecked(env: Environment, whole: Value, v: Value)
    requires AllChecked(env, whole) && Inside(whole, v)
    ensures AllChecked(env, v)
    decreases whole
  {
    if whole != v {
      match whole
      case State(_, fields) =>
        var i :| 0 <= i < |fields| && Inside(fields[i], v);
        InsideIsChecked(env, fields[i], v);
      case Dict(entries) =>
        var i :| 0 <= i < |entries| && (Inside(entries[i].0, v) || Inside(entries[i].1, v));
        InsideIsChecked(env, if Inside(entries[i].0, v) then entries[i].0 else entries[i].1, v);
      case Tuple(items) =>
        var i :| 0 <= i < |items| && Inside(items[i], v);
        InsideIsChecked(env, items[i], v);
      case List(items) =>
        var i :| 0 <= i < |items| && Inside(items[i], v);
        InsideIsChecked(env, items[i], v);
      case Set(items) =>
        var i :| 0 <= i < |items| && Inside(items[i], v);
        InsideIsChecked(env, items[i], v);
    }
  }

  lemma InsideAnyIsChecked(env: Environment, made: seq<Value>, v: Value)
    requires InsideAny(made, v) && forall m <- made :: AllChecked(env, m)
    ensures AllChecked(env, v)
  {
    var k :| 0 <= k < |made| && Inside(made[k], v);
    InsideIsChecked(env, made[k], v);
  }

  lemma {:induction false} BuiltIsChecked(env: Environment, made: seq<Value>, v: Value)
    requires BuiltFrom(made, v) && forall m <- made :: AllChecked(env, m)
    ensures AllChecked(env, v)
    decreases v
  {
    if InsideAny(made, v) {
      InsideAnyIsChecked(env, made, v);
    } else {
      match v
      case Dict(entries) =>
        forall i | 0 <= i < |entries| ensures AllChecked(env, entries[i].0) && AllChecked(env, entries[i].1) {
          BuiltIsChecked(env, made, entries[i].0);
          BuiltIsChecked(env, made, entries[i].1);
        }
      case Tuple(items) =>
        forall i | 0 <= i < |items| ensures AllChecked(env, items[i]) { BuiltIsChecked(env, made, items[i]); }
      case List(items) =>
        forall i | 0 <= i < |items| ensures AllChecked(env, items[i]) { BuiltIsChecked(env, made, items[i]); }
      case Set(items) =>
        forall i | 0 <= i < |items| ensures AllChecked(env, items[i]) { BuiltIsChecked(env, made, items[i]); }
      case _ =>
    }
  }

  lemma MadeIsChecked(env: Environment, made: seq<Value>, a: Action)
    requires KeepsAllInstances(env) && Allowed(made, a) && forall m <- made :: AllChecked(env, m)
    ensures forall v <- MadeBy(env, a) :: AllChecked(env, v)
  {
    match a
    case Make(cls, entries, depth) =>
      BuiltIsChecked(env, made, Dict(entries));
      if cls in env.classes && Construct(env, depth, cls, entries).Ok? {
        ConstructionKeepsInstances(env, depth, cls, entries);
      }
    case Change(subject, arguments, depth) =>
      forall j | 0 <= j < |arguments| ensures AllChecked(env, arguments[j].1) {
        BuiltIsChecked(env, made, arguments[j].1);
      }
      InsideAnyIsChecked(env, made, subject);
      if IsInstance(env, subject) && Replace(env, depth, subject, arguments).Ok? {
        ReplacementKeepsInstances(env, depth, subject, arguments);
      }
  }

  /** In every program, which may take any instance out of another one to pass it on or to update it, every
      instance, and every instance inside one, has only field values that satisfy their annotations, although
      an update validates the changed fields only. */
  lemma {:induction false} InstancesAreChecked(env: Environment, actions: seq<Action>)
    requires KeepsAllInstances(env) && IsProgram(env, actions)
    ensures forall v <- Instances(env, actions) :: AllChecked(env, v)
    decreases |actions|
  {
    if actions != [] {
      var n := |actions| - 1;
      InstancesAreChecked(env, actions[..n]);
      MadeIsChecked(env, Instances(env, actions[..n]), actions[n]);
    }
  }
}
