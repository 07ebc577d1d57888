/**
Where each step of a path leads and what assigning through it changes, place by place.
*/
module Steps {
  import opened Wrappers
  import opened Values
  import opened Annotations
  import opened States
  import opened RoundTrip
  import opened Paths

  // ----- Items ----------------------------------------------------------------------------------

  /** An index counts from the start, or from the end when it is negative. */
  ghost predicate Points(index: int, length: int, place: nat) {
    place < length && (index == place || index == place - length)
  }

  ghost predicate PointsNowhere(index: int, length: int) {
    index >= length || index < -length
  }

  /** The items of a tuple or a list with one of them replaced. */
  function WithItem(v: Value, place: nat, x: Value): Value
    requires (v.Tuple? || v.List?) && place < |v.items|
  {
    if v.Tuple? then Tuple(v.items[place := x]) else List(v.items[place := x])
  }

  /** `items[k]`, `items[-k]`, or an error outside the bounds. */
  lemma ItemLeads(env: Environment, c: Component, v: Value, place: nat)
    requires c.step.Item? && (v.Tuple? || v.List?) && c.root(ClassOf(v))
    ensures PointsNowhere(c.step.index, |v.items|) ==> Access(env, c, v) == Err(OutOfRange)
    ensures Points(c.step.index, |v.items|, place) ==>
              Access(env, c, v) ==
              if c.attribute(ClassOf(v.items[place])) then Ok(v.items[place]) else Err(UnexpectedValue)
  {
  }

  /** Assigning replaces that item. */
  lemma ItemIsAssigned(env: Environment, depth: nat, c: Component, v: Value, place: nat, x: Value)
    requires c.step.Item? && (v.Tuple? || v.List?) && c.root(ClassOf(v)) && c.attribute(ClassOf(x))
    ensures PointsNowhere(c.step.index, |v.items|) ==> Assign(env, depth, c, v, x) == Err(OutOfRange)
    ensures Points(c.step.index, |v.items|, place) ==> Assign(env, depth, c, v, x) == Ok(WithItem(v, place, x))
  {
  }

  /** The same for calls of a path of one step. */
  lemma ItemCall(env: Environment, depth: nat, c: Component, v: Value, place: nat, x: Value)
    requires c.step.Item? && (v.Tuple? || v.List?) && c.root(ClassOf(v))
    requires Points(c.step.index, |v.items|, place) && c.attribute(ClassOf(v.items[place]))
    ensures var p := AttributePath(c.root, [c], c.attribute);
            && Call(env, depth, p, v, Missing) == Ok(v.items[place])
            && (!x.Missing? && c.attribute(ClassOf(x)) ==> Call(env, depth, p, v, x) == Ok(WithItem(v, place, x)))
  {
    var child := v.items[place];
    assert [c][1..] == [];
    ItemLeads(env, c, v, place);
    assert Read(env, [c][1..], child) == Ok(child);
    if c.attribute(ClassOf(x)) {
      assert Write(env, depth, [c][1..], child, x) == Ok(x);
      ItemIsAssigned(env, depth, c, v, place, x);
    }
  }

  // ----- Keys -----------------------------------------------------------------------------------

  /** In a dictionary, whose keys differ, a key leads to the value stored under an equal one. */
  lemma KeyLeads(env: Environment, c: Component, v: Value, e: nat)
    requires c.step.Key? && v.Dict? && c.root(ClassOf(v)) && DistinctItems(Keys(v.entries))
    ensures (forall i | 0 <= i < |v.entries| :: !Same(v.entries[i].0, c.step.key)) ==> Access(env, c, v) == Err(NoKey)
    ensures e < |v.entries| && Same(v.entries[e].0, c.step.key) ==>
              Access(env, c, v) ==
              if c.attribute(ClassOf(v.entries[e].1)) then Ok(v.entries[e].1) else Err(UnexpectedValue)
  {
    if e < |v.entries| && Same(v.entries[e].0, c.step.key) {
      LookupOfDistinct(v.entries, e, c.step.key);
    }
  }

  /** Assigning changes the value under that key, or appends it. */
  lemma KeyIsAssigned(env: Environment, depth: nat, c: Component, v: Value, e: nat, x: Value)
    requires c.step.Key? && v.Dict? && c.root(ClassOf(v)) && c.attribute(ClassOf(x)) && DistinctItems(Keys(v.entries))
    ensures (forall i | 0 <= i < |v.entries| :: !Same(v.entries[i].0, c.step.key)) ==>
              Assign(env, depth, c, v, x) == Ok(Dict(v.entries + [(c.step.key, x)]))
    ensures e < |v.entries| && Same(v.entries[e].0, c.step.key) ==>
              Assign(env, depth, c, v, x) == Ok(Dict(v.entries[e := (v.entries[e].0, x)]))
  {
    PutEffect(v.entries, c.step.key, x);
    if e < |v.entries| && Same(v.entries[e].0, c.step.key) {
      var i :| 0 <= i < |v.entries| && Same(v.entries[i].0, c.step.key)
               && Put(v.entries, c.step.key, x) == v.entries[i := (v.entries[i].0, x)];
      OneEntry(v.entries, c.step.key, i, e);
    }
  }

  lemma OneEntry(entries: seq<(Value, Value)>, key: Value, i: nat, e: nat)
    requires DistinctItems(Keys(entries)) && i < |entries| && e < |entries|
    requires Same(entries[i].0, key) && Same(entries[e].0, key)
    ensures i == e
  {
    assert Unequal(Keys(entries), if i < e then i else e, if i < e then e else i) ==> i == e;
  }

  // ----- Fields ---------------------------------------------------------------------------------

  /** A name leads to the field of that name. */
  lemma FieldLeads(env: Environment, c: Component, v: Value, i: nat)
    requires c.step.Property? && IsInstance(env, v) && c.root(ClassOf(v)) && DistinctFields(env.classes[v.cls])
    ensures (forall j | 0 <= j < |v.fields| :: env.classes[v.cls][j].name != c.step.name) ==>
              Access(env, c, v) == Err(NotAvailable)
    ensures i < |v.fields| && env.classes[v.cls][i].name == c.step.name ==>
              Access(env, c, v) == if c.attribute(ClassOf(v.fields[i])) then Ok(v.fields[i]) else Err(UnexpectedValue)
  {
    var fields := env.classes[v.cls];
    var found := FieldIndex(fields, c.step.name);
    if found.Some? && i < |v.fields| && fields[i].name == c.step.name {
      assert found.value < i ==> !Clash(fields[found.value], fields[i]);
      assert i < found.value ==> !Clash(fields[i], fields[found.value]);
    }
  }

  /** Assigning validates the value with the annotation of the field, and changes that field alone. */
  lemma FieldIsAssigned(env: Environment, depth: nat, c: Component, v: Value, i: nat, x: Value)
    requires c.step.Property? && IsInstance(env, v) && c.root(ClassOf(v)) && DistinctFields(env.classes[v.cls])
    requires i < |v.fields| && env.classes[v.cls][i].name == c.step.name && c.attribute(ClassOf(x)) && !x.Missing?
    ensures Assign(env, depth, c, v, x) ==
            match Validate(env, depth, env.classes[v.cls][i].annotation, x)
            case Err(error) => Err(Invalid(error))
            case Ok(y) => Ok(State(v.cls, v.fields[i := y]))
  {
    FieldLeads(env, c, v, i);
    OneFieldReplaced(env, depth, v, i, x);
  }

  // ----- What is refused ------------------------------------------------------------------------

  /** A step applies to one shape of value, and the types it was declared with are looked at first and last. */
  lemma StepsAreRefused(env: Environment, depth: nat, c: Component, v: Value, x: Value)
    ensures !c.root(ClassOf(v)) ==>
              Access(env, c, v) == Err(UnexpectedSubject) && Assign(env, depth, c, v, x) == Err(UnexpectedSubject)
    ensures c.root(ClassOf(v)) && c.step.Item? && !v.Tuple? && !v.List? ==> Access(env, c, v) == Err(NotSupported)
    ensures c.root(ClassOf(v)) && c.step.Key? && !v.Dict? ==> Access(env, c, v) == Err(NotSupported)
    ensures c.root(ClassOf(v)) && c.step.Property? && !IsInstance(env, v) ==> Access(env, c, v) == Err(NotSupported)
    ensures c.root(ClassOf(v)) && Child(env, c.step, v).Ok? && !c.attribute(ClassOf(x)) ==>
              Assign(env, depth, c, v, x) == Err(UnexpectedValue)
  {
  }

  /** Two values are of one class exactly when they are built alike: for instances, of the same declared class. */
  lemma ClassesTellApart(a: Value, b: Value)
    ensures ClassOf(a) == ClassOf(b) <==>
            match a
            case Missing => b.Missing?
            case Null => b.Null?
            case Bool(_) => b.Bool?
            case Int(_) => b.Int?
            case Float(_) => b.Float?
            case Str(_) => b.Str?
            case Bytes(_) => b.Bytes?
            case Special(kind, _) => b.Special? && b.kind == kind
            case Tuple(_) => b.Tuple?
            case List(_) => b.List?
            case Set(_) => b.Set?
            case Dict(_) => b.Dict?
            case State(cls, _) => b.State? && b.cls == cls
  {
  }

  // ----- Longer paths ---------------------------------------------------------------------------

  /** Reading along two paths, one after the other. */
  lemma {:induction false} ReadsCompose(env: Environment, first: seq<Component>, then_: seq<Component>, v: Value)
    ensures Read(env, first + then_, v) ==
            match Read(env, first, v)
            case Err(error) => Err(error)
            case Ok(child) => Read(env, then_, child)
  {
    if first == [] {
      assert first + then_ == then_;
    } else {
      assert (first + then_)[1..] == first[1..] + then_;
      if Access(env, first[0], v).Ok? {
        ReadsCompose(env, first[1..], then_, Access(env, first[0], v).value);
      }
    }
  }

  /** Writing through two paths replaces what the first leads to by itself with the second written to. */
  lemma {:induction false} WritesCompose(env: Environment, depth: nat, first: seq<Component>, then_: seq<Component>,
                                         v: Value, x: Value)
    requires Read(env, first, v).Ok? && Write(env, depth, then_, Read(env, first, v).value, x).Ok?
    ensures Write(env, depth, first + then_, v, x) ==
            Write(env, depth, first, v, Write(env, depth, then_, Read(env, first, v).value, x).value)
  {
    if first == [] {
      assert first + then_ == then_;
    } else {
      assert (first + then_)[1..] == first[1..] + then_;
      WritesCompose(env, depth, first[1..], then_, Access(env, first[0], v).value, x);
    }
  }

  // ----- Calls ----------------------------------------------------------------------------------

  /** What `isinstance` is asked about a value with one of the built-in classes. */
  lemma ClassesAreNamed(v: Value)
    ensures ClassOf(v) == Builtin("NoneType") <==> v.Null?
    ensures ClassOf(v) == Builtin("Missing") <==> v.Missing?
    ensures ClassOf(v) == Builtin("bool") <==> v.Bool?
    ensures ClassOf(v) == Builtin("int") <==> v.Int?
    ensures ClassOf(v) == Builtin("float") <==> v.Float?
    ensures ClassOf(v) == Builtin("str") <==> v.Str?
    ensures ClassOf(v) == Builtin("bytes") <==> v.Bytes?
    ensures ClassOf(v) == Builtin("tuple") <==> v.Tuple?
    ensures ClassOf(v) == Builtin("list") <==> v.List?
    ensures ClassOf(v) == Builtin("set") <==> v.Set?
    ensures ClassOf(v) == Builtin("dict") <==> v.Dict?
    ensures forall cls :: ClassOf(v) == Instance(cls) <==> v.State? && v.cls == cls
    ensures forall kind :: ClassOf(v) == Format(kind) <==> v.Special? && v.kind == kind
  {
  }

  /** A call succeeds exactly when the root and the value that is read or written are of the types of the path and the
      path itself can be read or written. */
  lemma CallIff(env: Environment, depth: nat, p: AttributePath, v: Value, x: Value, r: Value)
    ensures Call(env, depth, p, v, Missing) == Ok(r) <==>
            p.root(ClassOf(v)) && Read(env, p.components, v) == Ok(r) && p.attribute(ClassOf(r))
    ensures x != Missing ==>
              (Call(env, depth, p, v, x) == Ok(r) <==>
               p.root(ClassOf(v)) && p.attribute(ClassOf(x)) && Write(env, depth, p.components, v, x) == Ok(r))
  {
  }

  /** The assertion about the root fails first, that about the written value next, that about the value that was read
      last; any other error is that of the read or the write. */
  lemma CallFailsIff(env: Environment, depth: nat, p: AttributePath, v: Value, x: Value)
    ensures !p.root(ClassOf(v)) ==> Call(env, depth, p, v, x) == Err(UnexpectedSubject)
    ensures p.root(ClassOf(v)) && x != Missing && Call(env, depth, p, v, x).Err? ==>
              Call(env, depth, p, v, x) ==
              if p.attribute(ClassOf(x)) then Write(env, depth, p.components, v, x) else Err(UnexpectedValue)
    ensures p.root(ClassOf(v)) && Call(env, depth, p, v, Missing).Err? ==>
              Call(env, depth, p, v, Missing) ==
              if Read(env, p.components, v).Err? then Read(env, p.components, v) else Err(UnexpectedValue)
  {
  }
}
