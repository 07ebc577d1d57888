/**
Attribute paths: reading a nested value, and replacing it in a copy of everything around it.
*/
module Paths {
  import opened Wrappers
  import opened Values
  import opened Annotations
  import opened States
  import opened RoundTrip
  import opened Programs

  /** The class of a value, which is all that the type assertions of a path look at. */
  datatype Class = Builtin(name: string) | Format(kind: string) | Instance(cls: string)

  function ClassOf(v: Value): Class {
    match v
    case Missing => Builtin("Missing")
    case Null => Builtin("NoneType")
    case Bool(_) => Builtin("bool")
    case Int(_) => Builtin("int")
    case Float(_) => Builtin("float")
    case Str(_) => Builtin("str")
    case Bytes(_) => Builtin("bytes")
    case Special(kind, _) => Format(kind)
    case Tuple(_) => Builtin("tuple")
    case List(_) => Builtin("list")
    case Set(_) => Builtin("set")
    case Dict(_) => Builtin("dict")
    case State(cls, _) => Instance(cls)
  }

  datatype Step = Property(name: string) | Item(index: int) | Key(key: Value)

  /** A step with the types of what it starts from and what it leads to. */
  datatype Component = Component(step: Step, root: Class -> bool, attribute: Class -> bool)

  datatype AttributePath = AttributePath(root: Class -> bool, components: seq<Component>, attribute: Class -> bool)

  datatype PathError =
    | UnexpectedSubject
    | UnexpectedValue
    | NotAvailable
    | OutOfRange
    | NoKey
    | NotSupported
    | Invalid(error: Error)

  type Resolved = Result<Value, PathError>

  // ----- The code -------------------------------------------------------------------------------

  /** An index counts from the end when it is negative. */
  function Position(index: int, length: nat): (position: Option<nat>)
    ensures position.Some? ==> position.value < length
  {
    if 0 <= index < length then Some(index)
    else if 0 <= index + length < length then Some(index + length)
    else None
  }

  function FieldIndex(fields: seq<Field>, name: string): (position: Option<nat>)
    ensures position.Some? ==> position.value < |fields| && fields[position.value].name == name
    ensures position.None? ==> forall i | 0 <= i < |fields| :: fields[i].name != name
  {
    if fields == [] then None
    else if fields[0].name == name then Some(0)
    else
      var rest := FieldIndex(fields[1..], name);
      assert forall i | 0 < i < |fields| :: fields[1..][i - 1] == fields[i];
      if rest.Some? then Some(rest.value + 1) else None
  }

  /** The value a step leads to. */
  function Child(env: Environment, step: Step, v: Value): Resolved {
    match step
    case Property(name) =>
      if !IsInstance(env, v) then Err(NotSupported)
      else
        var i := FieldIndex(env.classes[v.cls], name);
        if i.None? then Err(NotAvailable) else Ok(v.fields[i.value])
    case Item(index) =>
      if SequenceItems(v).None? then Err(NotSupported)
      else
        var items := SequenceItems(v).value;
        var i := Position(index, |items|);
        if i.None? then Err(OutOfRange) else Ok(items[i.value])
    case Key(key) =>
      if !v.Dict? then Err(NotSupported)
      else if Lookup(v.entries, key).None? then Err(NoKey)
      else Ok(Lookup(v.entries, key).value)
  }

  /** `access` */
  function Access(env: Environment, c: Component, v: Value): Resolved {
    if !c.root(ClassOf(v)) then Err(UnexpectedSubject)
    else
      match Child(env, c.step, v)
      case Err(error) => Err(error)
      case Ok(child) => if c.attribute(ClassOf(child)) then Ok(child) else Err(UnexpectedValue)
  }

  /** `assigning` */
  function Assign(env: Environment, depth: nat, c: Component, v: Value, x: Value): Resolved {
    if !c.root(ClassOf(v)) then Err(UnexpectedSubject)
    else if c.step.Property? && Child(env, c.step, v).Err? then Err(Child(env, c.step, v).error)
    else if !c.attribute(ClassOf(x)) then Err(UnexpectedValue)
    else
      match c.step
      case Property(name) =>
        (match Replace(env, depth, v, [(name, x)])
         case Err(error) => Err(Invalid(error))
         case Ok(updated) => Ok(updated))
      case Item(index) =>
        (match v
         case Tuple(items) => AssignItem(v, index, x)
         case List(items) => AssignItem(v, index, x)
         case _ => Err(NotSupported))
      case Key(key) =>
        if v.Dict? then Ok(Dict(Put(v.entries, key, x))) else Err(NotSupported)
  }

  function AssignItem(v: Value, index: int, x: Value): Resolved
    requires v.Tuple? || v.List?
  {
    var i := Position(index, |v.items|);
    if i.None? then Err(OutOfRange)
    else if v.Tuple? then Ok(Tuple(v.items[i.value := x]))
    else Ok(List(v.items[i.value := x]))
  }

  function Read(env: Environment, path: seq<Component>, v: Value): Resolved {
    if path == [] then Ok(v)
    else
      match Access(env, path[0], v)
      case Err(error) => Err(error)
      case Ok(child) => Read(env, path[1..], child)
  }

  /** Replacing what a path leads to. */
  function Write(env: Environment, depth: nat, path: seq<Component>, v: Value, x: Value): Resolved {
    if path == [] then Ok(x)
    else
      match Access(env, path[0], v)
      case Err(error) => Err(error)
      case Ok(child) =>
        match Write(env, depth, path[1..], child, x)
        case Err(error) => Err(error)
        case Ok(updated) => Assign(env, depth, path[0], v, updated)
  }

  /** `AttributePath.__call__`; giving `Missing` reads. */
  function Call(env: Environment, depth: nat, p: AttributePath, v: Value, updated: Value): Resolved {
    if !p.root(ClassOf(v)) then Err(UnexpectedSubject)
    else if !updated.Missing? then
      if p.attribute(ClassOf(updated)) then Write(env, depth, p.components, v, updated) else Err(UnexpectedValue)
    else
      match Read(env, p.components, v)
      case Err(error) => Err(error)
      case Ok(resolved) => if p.attribute(ClassOf(resolved)) then Ok(resolved) else Err(UnexpectedValue)
  }

  // ----- One step -------------------------------------------------------------------------------

  /** The code asserts, when a class is created, that no name or alias is used twice in it. */
  ghost predicate DistinctClasses(env: Environment) {
    forall cls <- env.classes :: DistinctFields(env.classes[cls])
  }

  /** Validating the assigned value, which only a State does, keeps it as it is. */
  ghost predicate Kept(env: Environment, depth: nat, step: Step, v: Value, x: Value) {
    step.Property? && IsInstance(env, v) && FieldIndex(env.classes[v.cls], step.name).Some? ==>
      var field := env.classes[v.cls][FieldIndex(env.classes[v.cls], step.name).value];
      !x.Missing? && Validate(env, depth, field.annotation, x) == Ok(x)
  }

  /** The indices are of the same item, one of them perhaps from the end; or both are out of bounds. */
  predicate SameItem(i: int, j: int, length: int) {
    if -length <= i < length then -length <= j < length && (i == j || i == j + length || j == i + length)
    else j < -length || j >= length
  }

  /** The steps lead to the same place in the value, whatever is there. */
  ghost predicate SameSlot(a: Step, b: Step, v: Value) {
    match (a, b)
    case (Property(m), Property(n)) => m == n
    case (Item(i), Item(j)) =>
      SequenceItems(v).Some? && SameItem(i, j, |SequenceItems(v).value|)
    case (Key(k), Key(l)) => Same(k, l)
    case _ => false
  }

  /** An update of one field validates it and keeps the others. */
  lemma OneFieldReplaced(env: Environment, depth: nat, v: Value, i: nat, x: Value)
    requires IsInstance(env, v) && DistinctFields(env.classes[v.cls]) && i < |v.fields| && !x.Missing?
    ensures Replace(env, depth, v, [(env.classes[v.cls][i].name, x)]) ==
            match Validate(env, depth, env.classes[v.cls][i].annotation, x)
            case Err(error) => Err(error)
            case Ok(y) => Ok(State(v.cls, v.fields[i := y]))
  {
    var fields := env.classes[v.cls];
    var arguments := [(fields[i].name, x)];
    var parts := ReplaceFields(env, depth, v, arguments);
    var result := Validate(env, depth, fields[i].annotation, x);
    assert arguments[..0] == [];
    forall j | 0 <= j < |fields| ensures parts[j] == if j == i then result else Ok(v.fields[j]) {
      assert j < i ==> !Clash(fields[j], fields[i]);
      assert i < j ==> !Clash(fields[i], fields[j]);
      assert Update(fields[j], arguments) == if j == i then Some(x) else None;
    }
    if result.Ok? {
      CollectIff(parts, v.fields[i := result.value]);
    } else {
      OnlyError(parts, i);
    }
  }

  lemma {:induction false} OnlyError<T>(results: seq<Result<T, Error>>, i: nat)
    requires i < |results| && results[i].Err?
    requires forall j | 0 <= j < |results| && j != i :: results[j].Ok?
    ensures Collect(results) == Err(results[i].error)
  {
    var n := |results| - 1;
    CollectIsAll(results[..n]);
    if i < n {
      OnlyError(results[..n], i);
    }
  }

  lemma {:induction false} PutWhatIsThere(entries: seq<(Value, Value)>, key: Value)
    requires Lookup(entries, key).Some?
    ensures Put(entries, key, Lookup(entries, key).value) == entries
  {
    if !Same(entries[0].0, key) {
      PutWhatIsThere(entries[1..], key);
    }
  }

  lemma {:induction false} PutTwice(entries: seq<(Value, Value)>, key: Value, x: Value, y: Value)
    ensures Put(Put(entries, key, x), key, y) == Put(entries, key, y)
  {
    if entries != [] && !Same(entries[0].0, key) {
      PutTwice(entries[1..], key, x, y);
    }
  }

  /** Steps to the same slot lead to the new value, all others where they led before. */
  ghost predicate OnlySlot(env: Environment, step: Step, v: Value, w: Value, x: Value) {
    forall o: Step :: Child(env, o, w) == if SameSlot(step, o, v) then Ok(x) else Child(env, o, v)
  }

  lemma ItemPut(env: Environment, depth: nat, c: Component, v: Value, x: Value)
    requires c.step.Item? && Access(env, c, v).Ok? && Assign(env, depth, c, v, x).Ok?
    ensures var w := Assign(env, depth, c, v, x).value; ClassOf(w) == ClassOf(v) && OnlySlot(env, c.step, v, w, x)
  {
    var w := Assign(env, depth, c, v, x).value;
    forall o: Step ensures Child(env, o, w) == if SameSlot(c.step, o, v) then Ok(x) else Child(env, o, v) {
    }
  }

  lemma KeyPut(env: Environment, depth: nat, c: Component, v: Value, x: Value)
    requires c.step.Key? && Access(env, c, v).Ok? && Assign(env, depth, c, v, x).Ok?
    ensures var w := Assign(env, depth, c, v, x).value; ClassOf(w) == ClassOf(v) && OnlySlot(env, c.step, v, w, x)
  {
    var w := Assign(env, depth, c, v, x).value;
    forall o: Step ensures Child(env, o, w) == if SameSlot(c.step, o, v) then Ok(x) else Child(env, o, v) {
      if o.Key? {
        PutThenLookup(v.entries, c.step.key, x, o.key);
      }
    }
  }

  lemma FieldPut(env: Environment, depth: nat, c: Component, v: Value, x: Value)
    requires DistinctClasses(env) && Kept(env, depth, c.step, v, x)
    requires c.step.Property? && Access(env, c, v).Ok? && Assign(env, depth, c, v, x).Ok?
    ensures var w := Assign(env, depth, c, v, x).value; ClassOf(w) == ClassOf(v) && OnlySlot(env, c.step, v, w, x)
  {
    var w := Assign(env, depth, c, v, x).value;
    OneFieldReplaced(env, depth, v, FieldIndex(env.classes[v.cls], c.step.name).value, x);
    forall o: Step ensures Child(env, o, w) == if SameSlot(c.step, o, v) then Ok(x) else Child(env, o, v) {
    }
  }

  /** The value is put where the step leads; everything else, and the class, stays. */
  lemma Assigned(env: Environment, depth: nat, c: Component, v: Value, x: Value)
    requires DistinctClasses(env) && Kept(env, depth, c.step, v, x)
    requires Access(env, c, v).Ok? && Assign(env, depth, c, v, x).Ok?
    ensures var w := Assign(env, depth, c, v, x).value;
            && ClassOf(w) == ClassOf(v)
            && Access(env, c, w) == Ok(x)
            && (forall o: Step :: Child(env, o, w) == if SameSlot(c.step, o, v) then Ok(x) else Child(env, o, v))
  {
    match c.step {
      case Property(_) => FieldPut(env, depth, c, v, x);
      case Item(_) => ItemPut(env, depth, c, v, x);
      case Key(_) => KeyPut(env, depth, c, v, x);
    }
    SlotOfItself(c.step, v);
  }

  lemma SlotOfItself(step: Step, v: Value)
    requires step.Item? ==> SequenceItems(v).Some?
    ensures SameSlot(step, step, v)
  {
  }

  lemma AssignedBack(env: Environment, depth: nat, c: Component, v: Value)
    requires DistinctClasses(env) && Access(env, c, v).Ok? && Kept(env, depth, c.step, v, Access(env, c, v).value)
    ensures Assign(env, depth, c, v, Access(env, c, v).value) == Ok(v)
  {
    var x := Access(env, c, v).value;
    match c.step {
      case Property(name) =>
        var i := FieldIndex(env.classes[v.cls], name).value;
        OneFieldReplaced(env, depth, v, i, x);
        assert v.fields[i := x] == v.fields;
      case Item(index) =>
        var i := Position(index, |v.items|).value;
        assert v.items[i := x] == v.items;
      case Key(key) =>
        PutWhatIsThere(v.entries, key);
    }
  }

  lemma AssignedTwice(env: Environment, depth: nat, c: Component, v: Value, x: Value, y: Value)
    requires DistinctClasses(env) && Kept(env, depth, c.step, v, x) && !y.Missing?
    requires Access(env, c, v).Ok? && Assign(env, depth, c, v, x).Ok?
    ensures Assign(env, depth, c, Assign(env, depth, c, v, x).value, y) == Assign(env, depth, c, v, y)
  {
    match c.step {
      case Property(name) =>
        var i := FieldIndex(env.classes[v.cls], name).value;
        OneFieldReplaced(env, depth, v, i, x);
        OneFieldReplaced(env, depth, v, i, y);
        OneFieldReplaced(env, depth, State(v.cls, v.fields[i := x]), i, y);
        forall z | Validate(env, depth, env.classes[v.cls][i].annotation, y) == Ok(z)
          ensures v.fields[i := x][i := z] == v.fields[i := z]
        {
        }
      case Item(index) =>
        var i := Position(index, |v.items|).value;
        assert v.items[i := x][i := y] == v.items[i := y];
      case Key(key) =>
        PutTwice(v.entries, key, x, y);
    }
  }

  // ----- Whole paths ----------------------------------------------------------------------------

  /** All assignments of the update keep what they assign. */
  ghost predicate Settled(env: Environment, depth: nat, path: seq<Component>, v: Value, x: Value) {
    path != [] && Access(env, path[0], v).Ok? ==>
      var child := Access(env, path[0], v).value;
      && Settled(env, depth, path[1..], child, x)
      && (Write(env, depth, path[1..], child, x).Ok? ==>
            Kept(env, depth, path[0].step, v, Write(env, depth, path[1..], child, x).value))
  }

  /** Writing back what was read changes nothing. */
  lemma {:induction false} ReadThenWrite(env: Environment, depth: nat, path: seq<Component>, v: Value)
    requires DistinctClasses(env) && Read(env, path, v).Ok?
    requires Settled(env, depth, path, v, Read(env, path, v).value)
    ensures Write(env, depth, path, v, Read(env, path, v).value) == Ok(v)
  {
    if path != [] {
      ReadThenWrite(env, depth, path[1..], Access(env, path[0], v).value);
      AssignedBack(env, depth, path[0], v);
    }
  }

  /** What was written is read. */
  lemma {:induction false} WriteThenRead(env: Environment, depth: nat, path: seq<Component>, v: Value, x: Value)
    requires DistinctClasses(env) && Write(env, depth, path, v, x).Ok? && Settled(env, depth, path, v, x)
    ensures Read(env, path, Write(env, depth, path, v, x).value) == Ok(x)
    ensures ClassOf(Write(env, depth, path, v, x).value) == if path == [] then ClassOf(x) else ClassOf(v)
  {
    if path != [] {
      var child := Access(env, path[0], v).value;
      WriteThenRead(env, depth, path[1..], child, x);
      Assigned(env, depth, path[0], v, Write(env, depth, path[1..], child, x).value);
    }
  }

  /** A second write to the same path makes the first one irrelevant, whether it succeeds or fails. */
  lemma {:induction false} WriteTwice(env: Environment, depth: nat, path: seq<Component>, v: Value, x: Value, y: Value)
    requires DistinctClasses(env) && Write(env, depth, path, v, x).Ok? && Settled(env, depth, path, v, x) && !y.Missing?
    ensures Write(env, depth, path, Write(env, depth, path, v, x).value, y) == Write(env, depth, path, v, y)
  {
    if path != [] {
      var child := Access(env, path[0], v).value;
      var inner := Write(env, depth, path[1..], child, x).value;
      WriteTwice(env, depth, path[1..], child, x, y);
      Assigned(env, depth, path[0], v, inner);
      var again := Write(env, depth, path[1..], child, y);
      if again.Ok? {
        WrittenIsThere(env, depth, path[1..], child, y);
        AssignedTwice(env, depth, path[0], v, inner, again.value);
      }
    }
  }

  lemma WrittenIsThere(env: Environment, depth: nat, path: seq<Component>, v: Value, x: Value)
    requires Write(env, depth, path, v, x).Ok? && !x.Missing?
    ensures !Write(env, depth, path, v, x).value.Missing?
  {
  }

  /** Somewhere the paths take different steps. */
  ghost predicate Diverge(env: Environment, path: seq<Component>, other: seq<Component>, v: Value) {
    && path != [] && other != [] && Access(env, path[0], v).Ok?
    && (SameSlot(path[0].step, other[0].step, v) ==>
          Diverge(env, path[1..], other[1..], Access(env, path[0], v).value))
  }

  /** A read along a path that diverges from the written one gives the same value or error as before. */
  lemma {:induction false} WriteElsewhere(env: Environment, depth: nat, path: seq<Component>, other: seq<Component>,
                                          v: Value, x: Value)
    requires DistinctClasses(env) && Write(env, depth, path, v, x).Ok? && Settled(env, depth, path, v, x)
    requires Diverge(env, path, other, v)
    ensures Read(env, other, Write(env, depth, path, v, x).value) == Read(env, other, v)
  {
    var child := Access(env, path[0], v).value;
    var inner := Write(env, depth, path[1..], child, x).value;
    if SameSlot(path[0].step, other[0].step, v) {
      WriteElsewhere(env, depth, path[1..], other[1..], child, x);
      WriteThenRead(env, depth, path[1..], child, x);
    }
    AssignedElsewhere(env, depth, path[0], other[0], v, inner);
  }

  /** What another step leads to after the assignment of a value of the same class. */
  lemma AssignedElsewhere(env: Environment, depth: nat, c: Component, other: Component, v: Value, x: Value)
    requires DistinctClasses(env) && Kept(env, depth, c.step, v, x)
    requires Access(env, c, v).Ok? && Assign(env, depth, c, v, x).Ok?
    requires SameSlot(c.step, other.step, v) ==> ClassOf(x) == ClassOf(Access(env, c, v).value)
    ensures Access(env, other, Assign(env, depth, c, v, x).value) ==
            if SameSlot(c.step, other.step, v) && Access(env, other, v).Ok? then Ok(x) else Access(env, other, v)
    ensures SameSlot(c.step, other.step, v) && Access(env, other, v).Ok? ==> Access(env, other, v) == Access(env, c, v)
  {
    Assigned(env, depth, c, v, x);
    if SameSlot(c.step, other.step, v) {
      SlotsLeadAlike(env, c.step, other.step, v);
    }
  }

  lemma SlotsLeadAlike(env: Environment, a: Step, b: Step, v: Value)
    requires SameSlot(a, b, v)
    ensures Child(env, a, v) == Child(env, b, v)
  {
    if a.Key? && v.Dict? {
      SameKeysFindAlike(v.entries, a.key, b.key);
    }
  }

  lemma {:induction false} SameKeysFindAlike(entries: seq<(Value, Value)>, a: Value, b: Value)
    requires Same(a, b)
    ensures Lookup(entries, a) == Lookup(entries, b)
  {
    if entries != [] {
      SameKeysFindAlike(entries[1..], a, b);
    }
  }

  // ----- Instances made by validation -----------------------------------------------------------

  /** A field value of an exactly typed instance validates to itself. */
  lemma FieldIsKept(env: Environment, bound: nat, depth: nat, v: Value, i: nat)
    requires PlainEnvironment(env) && IsInstance(env, v) && InstancesExact(env, bound, v)
    requires i < |v.fields| && bound <= depth
    ensures Validate(env, depth, env.classes[v.cls][i].annotation, v.fields[i]) == Ok(v.fields[i])
    ensures InstancesExact(env, bound, v.fields[i])
  {
    var a := env.classes[v.cls][i].annotation;
    assert PlainClass(env, env.classes[v.cls]);
    RoundTripIff(env, bound - 1, depth, a, v.fields[i], false);
    ExactInside(env, bound - 1, a, v.fields[i]);
    InstancesDeeper(env, bound - 1, bound, v.fields[i]);
  }

  lemma {:induction false} FoundIsEntry(entries: seq<(Value, Value)>, key: Value)
    requires Lookup(entries, key).Some?
    ensures exists i :: 0 <= i < |entries| && entries[i].1 == Lookup(entries, key).value
  {
  }

  lemma ChildIsExact(env: Environment, bound: nat, step: Step, v: Value)
    requires PlainEnvironment(env) && InstancesExact(env, bound, v) && Child(env, step, v).Ok?
    ensures InstancesExact(env, bound, Child(env, step, v).value)
  {
    match step
    case Property(name) => FieldIsKept(env, bound, bound, v, FieldIndex(env.classes[v.cls], name).value);
    case Item(_) =>
    case Key(key) => FoundIsEntry(v.entries, key);
  }

  lemma {:induction false} ReadIsSettled(env: Environment, bound: nat, depth: nat, path: seq<Component>, v: Value)
    requires PlainEnvironment(env) && InstancesExact(env, bound, v) && bound <= depth
    requires Read(env, path, v).Ok? && !Read(env, path, v).value.Missing?
    ensures Settled(env, depth, path, v, Read(env, path, v).value)
  {
    if path != [] {
      var child, x := Access(env, path[0], v).value, Read(env, path, v).value;
      ChildIsExact(env, bound, path[0].step, v);
      ReadIsSettled(env, bound, depth, path[1..], child);
      ProperByPlain(env);
      ReadThenWrite(env, depth, path[1..], child);
      WrittenIsThere(env, depth, path[1..], child, x);
      if path[0].step.Property? {
        FieldIsKept(env, bound, depth, v, FieldIndex(env.classes[v.cls], path[0].step.name).value);
      }
    }
  }

  lemma ProperByPlain(env: Environment)
    requires PlainEnvironment(env)
    ensures DistinctClasses(env)
  {
    forall cls <- env.classes ensures DistinctFields(env.classes[cls]) {
      assert PlainClass(env, env.classes[cls]);
    }
  }

  /** In a value made by validation, writing back along any path what was read there changes nothing, although
      everything around it is validated again. */
  lemma ValidatedIsWrittenBack(env: Environment, bound: nat, depth: nat, path: seq<Component>, v: Value)
    requires PlainEnvironment(env) && InstancesExact(env, bound, v) && bound <= depth
    requires Read(env, path, v).Ok? && !Read(env, path, v).value.Missing?
    ensures Write(env, depth, path, v, Read(env, path, v).value) == Ok(v)
  {
    ReadIsSettled(env, bound, depth, path, v);
    ProperByPlain(env);
    ReadThenWrite(env, depth, path, v);
  }

  /** Calling a path with a value and then without one gives the value. */
  lemma CallReadsWhatItWrote(env: Environment, depth: nat, p: AttributePath, v: Value, x: Value)
    requires DistinctClasses(env) && !x.Missing? && Call(env, depth, p, v, x).Ok?
    requires Settled(env, depth, p.components, v, x)
    requires p.components == [] ==> forall c :: p.root(c) == p.attribute(c)
    ensures Call(env, depth, p, Call(env, depth, p, v, x).value, Missing) == Ok(x)
  {
    WriteThenRead(env, depth, p.components, v, x);
  }

  /** Whatever the write puts into a field has the annotated type without any coercion. */
  ghost predicate ExactlyTyped(env: Environment, bound: nat, depth: nat, path: seq<Component>, v: Value, x: Value) {
    path != [] && Access(env, path[0], v).Ok? ==>
      var child := Access(env, path[0], v).value;
      var inner := Write(env, depth, path[1..], child, x);
      && ExactlyTyped(env, bound, depth, path[1..], child, x)
      && (inner.Ok? && path[0].step.Property? && IsInstance(env, v) ==>
            var field := env.classes[v.cls][FieldIndex(env.classes[v.cls], path[0].step.name).value];
            Exact(env, bound, field.annotation, inner.value))
  }

  lemma {:induction false} ExactlyTypedIsSettled(env: Environment, bound: nat, depth: nat, path: seq<Component>,
                                                 v: Value,
                                                 x: Value)
    requires PlainEnvironment(env) && bound <= depth && !x.Missing? && ExactlyTyped(env, bound, depth, path, v, x)
    ensures Settled(env, depth, path, v, x)
  {
    if path != [] && Access(env, path[0], v).Ok? {
      var child := Access(env, path[0], v).value;
      ExactlyTypedIsSettled(env, bound, depth, path[1..], child, x);
      var inner := Write(env, depth, path[1..], child, x);
      if inner.Ok? {
        WrittenIsThere(env, depth, path[1..], child, x);
        if path[0].step.Property? && IsInstance(env, v) {
          ExactIsKept(env, bound, depth, v, FieldIndex(env.classes[v.cls], path[0].step.name).value, inner.value);
        }
      }
    }
  }

  lemma ExactIsKept(env: Environment, bound: nat, depth: nat, v: Value, i: nat, x: Value)
    requires PlainEnvironment(env) && IsInstance(env, v) && i < |v.fields| && bound <= depth
    requires Exact(env, bound, env.classes[v.cls][i].annotation, x)
    ensures Validate(env, depth, env.classes[v.cls][i].annotation, x) == Ok(x)
  {
    assert PlainClass(env, env.classes[v.cls]);
    RoundTripIff(env, bound, depth, env.classes[v.cls][i].annotation, x, false);
  }

  /** So put-get, put-put and the independence of diverging paths hold for exactly typed values, with no
      assumption about what validation does. */
  lemma ExactWritesObeyTheLaws(env: Environment, bound: nat, depth: nat, path: seq<Component>, v: Value, x: Value)
    requires PlainEnvironment(env) && bound <= depth && !x.Missing? && ExactlyTyped(env, bound, depth, path, v, x)
    requires Write(env, depth, path, v, x).Ok?
    ensures var w := Write(env, depth, path, v, x).value;
            && Read(env, path, w) == Ok(x)
            && (forall y: Value | !y.Missing? :: Write(env, depth, path, w, y) == Write(env, depth, path, v, y))
            && (forall other | Diverge(env, path, other, v) :: Read(env, other, w) == Read(env, other, v))
  {
    ExactlyTypedIsSettled(env, bound, depth, path, v, x);
    ProperByPlain(env);
    WriteThenRead(env, depth, path, v, x);
    forall y: Value | !y.Missing?
      ensures Write(env, depth, path, Write(env, depth, path, v, x).value, y) == Write(env, depth, path, v, y)
    {
      WriteTwice(env, depth, path, v, x, y);
    }
    forall other | Diverge(env, path, other, v)
      ensures Read(env, other, Write(env, depth, path, v, x).value) == Read(env, other, v)
    {
      WriteElsewhere(env, depth, path, other, v, x);
    }
  }

  // ----- The loops ------------------------------------------------------------------------------

  /** The assignments that are still to be made, the innermost last. */
  ghost function Unwind(env: Environment, depth: nat, stack: seq<(Value, Component)>, x: Resolved): Resolved {
    if stack == [] || x.Err? then x
    else
      var (subject, component) := stack[|stack| - 1];
      Unwind(env, depth, stack[..|stack| - 1], Assign(env, depth, component, subject, x.value))
  }

  lemma {:induction false} UnwindErrors(env: Environment, depth: nat, stack: seq<(Value, Component)>, x: Resolved)
    requires x.Err?
    ensures Unwind(env, depth, stack, x) == x
  {
  }

  lemma Pushed(env: Environment, depth: nat, stack: seq<(Value, Component)>, path: seq<Component>, v: Value, x: Value)
    requires path != [] && Access(env, path[0], v).Ok?
    ensures Unwind(env, depth, stack, Write(env, depth, path, v, x)) ==
            Unwind(env, depth, stack + [(v, path[0])],
                   Write(env, depth, path[1..], Access(env, path[0], v).value, x))
  {
    var inner := Write(env, depth, path[1..], Access(env, path[0], v).value, x);
    var pushed := stack + [(v, path[0])];
    assert pushed[..|pushed| - 1] == stack;
    if inner.Err? {
      UnwindErrors(env, depth, stack, inner);
      UnwindErrors(env, depth, pushed, inner);
    }
  }

  method WriteWithStack(env: Environment, depth: nat, components: seq<Component>, v: Value, updated: Value)
      returns (r: Resolved)
    ensures r == Write(env, depth, components, v, updated)
  {
    var resolved := v;
    var stack: seq<(Value, Component)> := [];
    ghost var goal := Write(env, depth, components, v, updated);
    for k := 0 to |components|
      invariant goal == Unwind(env, depth, stack, Write(env, depth, components[k..], resolved, updated))
    {
      var child := Access(env, components[k], resolved);
      assert components[k..][0] == components[k] && components[k..][1..] == components[k + 1..];
      if child.Err? {
        UnwindErrors(env, depth, stack, child);
        return child;
      }
      Pushed(env, depth, stack, components[k..], resolved, updated);
      stack := stack + [(resolved, components[k])];
      resolved := child.value;
    }
    var value := updated;
    while stack != []
      invariant goal == Unwind(env, depth, stack, Ok(value))
    {
      var (subject, component) := stack[|stack| - 1];
      stack := stack[..|stack| - 1];
      var around := Assign(env, depth, component, subject, value);
      if around.Err? {
        UnwindErrors(env, depth, stack, around);
        return around;
      }
      value := around.value;
    }
    return Ok(value);
  }

  /** `AttributePath.__call__` */
  method CallPath(env: Environment, depth: nat, p: AttributePath, v: Value, updated: Value) returns (r: Resolved)
    ensures r == Call(env, depth, p, v, updated)
  {
    if !p.root(ClassOf(v)) {
      return Err(UnexpectedSubject);
    }
    if !updated.Missing? {
      if !p.attribute(ClassOf(updated)) {
        return Err(UnexpectedValue);
      }
      r := WriteWithStack(env, depth, p.components, v, updated);
      return;
    }
    var resolved := v;
    for k := 0 to |p.components|
      invariant Read(env, p.components, v) == Read(env, p.components[k..], resolved)
    {
      var child := Access(env, p.components[k], resolved);
      assert p.components[k..][1..] == p.components[k + 1..];
      if child.Err? {
        return child;
      }
      resolved := child.value;
    }
    return if p.attribute(ClassOf(resolved)) then Ok(resolved) else Err(UnexpectedValue);
  }
}
