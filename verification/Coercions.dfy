/**
Writes along a path that validation does not leave as they are: exactly when what was written is read back.
*/
module Coercions {
  import opened Wrappers
  import opened Values
  import opened Annotations
  import opened States
  import opened RoundTrip
  import opened Paths

  /** What the first field on the path validates the updated value around its part to. */
  function FieldValue(env: Environment, depth: nat, path: seq<Component>, v: Value, x: Value): Validated
    requires path != [] && path[0].step.Property? && Access(env, path[0], v).Ok?
    requires Write(env, depth, path[1..], Access(env, path[0], v).value, x).Ok?
  {
    var field := env.classes[v.cls][FieldIndex(env.classes[v.cls], path[0].step.name).value];
    Validate(env, depth, field.annotation, Write(env, depth, path[1..], Access(env, path[0], v).value, x).value)
  }

  /** Items and keys take any value.  At the first field, the rest of the path leads to the written value in
      what the annotation makes of the updated field value. */
  ghost predicate Survives(env: Environment, depth: nat, path: seq<Component>, v: Value, x: Value)
    requires Write(env, depth, path, v, x).Ok?
  {
    path == [] ||
    var child := Access(env, path[0], v).value;
    if path[0].step.Property? then
      var validated := FieldValue(env, depth, path, v, x);
      validated.Ok? && path[0].attribute(ClassOf(validated.value)) && Read(env, path[1..], validated.value) == Ok(x)
    else Survives(env, depth, path[1..], child, x)
  }

  lemma {:induction false} WrittenIsNotMissing(env: Environment, depth: nat, path: seq<Component>, v: Value, x: Value)
    requires !x.Missing? && Write(env, depth, path, v, x).Ok?
    ensures !Write(env, depth, path, v, x).value.Missing?
  {
  }

  /** For every path: what is written is read back if and only if it survives. */
  lemma {:induction false} WrittenIsReadBackIff(env: Environment, depth: nat, path: seq<Component>, v: Value, x: Value)
    requires DistinctClasses(env) && !x.Missing? && Write(env, depth, path, v, x).Ok?
    ensures Read(env, path, Write(env, depth, path, v, x).value) == Ok(x) <==> Survives(env, depth, path, v, x)
  {
    if path != [] {
      var child := Access(env, path[0], v).value;
      var inner := Write(env, depth, path[1..], child, x).value;
      if path[0].step.Property? {
        WrittenIsNotMissing(env, depth, path[1..], child, x);
        OneFieldReplaced(env, depth, v, FieldIndex(env.classes[v.cls], path[0].step.name).value, inner);
      } else {
        WrittenIsReadBackIff(env, depth, path[1..], child, x);
        Assigned(env, depth, path[0], v, inner);
      }
    }
  }

  /** For one field: exactly when its annotation does not coerce the value. */
  lemma FieldIsReadBackIff(env: Environment, depth: nat, c: Component, v: Value, x: Value)
    requires DistinctClasses(env) && c.step.Property? && !x.Missing?
    requires Access(env, c, v).Ok? && Write(env, depth, [c], v, x).Ok?
    ensures var field := env.classes[v.cls][FieldIndex(env.classes[v.cls], c.step.name).value];
            Read(env, [c], Write(env, depth, [c], v, x).value) == Ok(x) <==>
            Validate(env, depth, field.annotation, x) == Ok(x)
  {
    var i := FieldIndex(env.classes[v.cls], c.step.name).value;
    OneFieldReplaced(env, depth, v, i, x);
    assert [c][1..] == [];
  }

  /** Writing back what was read: every sequence and dictionary up to the first field can be assigned to, and that
      field validates the updated value to what it holds. */
  ghost predicate Returns(env: Environment, depth: nat, path: seq<Component>, v: Value)
    requires Read(env, path, v).Ok?
  {
    path == [] ||
    var child, x := Access(env, path[0], v).value, Read(env, path, v).value;
    if path[0].step.Property? then
      var inner := Write(env, depth, path[1..], child, x);
      && inner.Ok? && path[0].attribute(ClassOf(inner.value))
      && FieldValue(env, depth, path, v, x) == Ok(child)
    else (path[0].step.Item? ==> v.Tuple? || v.List?) && Returns(env, depth, path[1..], child)
  }

  lemma AssignedAlike(env: Environment, depth: nat, c: Component, v: Value, x: Value)
    requires DistinctClasses(env) && !c.step.Property? && Access(env, c, v).Ok?
    ensures Assign(env, depth, c, v, x) == Ok(v) <==>
            (c.step.Item? ==> v.Tuple? || v.List?) && x == Access(env, c, v).value
  {
    if Assign(env, depth, c, v, x).Ok? {
      Assigned(env, depth, c, v, x);
    }
    if c.step.Item? ==> v.Tuple? || v.List? {
      AssignedBack(env, depth, c, v);
    }
  }

  /** For every path: writing back what was read there changes nothing if and only if that is so. */
  lemma {:induction false} ReadIsWrittenBackIff(env: Environment, depth: nat, path: seq<Component>, v: Value)
    requires DistinctClasses(env) && Read(env, path, v).Ok? && !Read(env, path, v).value.Missing?
    ensures Write(env, depth, path, v, Read(env, path, v).value) == Ok(v) <==> Returns(env, depth, path, v)
  {
    if path != [] {
      var child, x := Access(env, path[0], v).value, Read(env, path, v).value;
      var inner := Write(env, depth, path[1..], child, x);
      if path[0].step.Property? {
        if inner.Ok? {
          var i := FieldIndex(env.classes[v.cls], path[0].step.name).value;
          WrittenIsNotMissing(env, depth, path[1..], child, x);
          OneFieldReplaced(env, depth, v, i, inner.value);
          assert v.fields[i := child] == v.fields;
        }
      } else {
        ReadIsWrittenBackIff(env, depth, path[1..], child);
        if inner.Ok? {
          AssignedAlike(env, depth, path[0], v, inner.value);
        }
      }
    }
  }

  // ----- Two values that are not read back ------------------------------------------------------

  function To(name: string): Component {
    Component(Property(name), (c: Class) => true, (c: Class) => true)
  }

  /** The field `b: int`. */
  function Number(): Field {
    Field("b", None, IntA, Missing)
  }

  /** Whatever it is given, the field `a` takes an instance whose `b` is 0. */
  function Resetting(): Field {
    Field("a", None, ValidatedA(StateA("C"), (v: Value) => Ok(State("C", [Int(0)]))), Missing)
  }

  ghost predicate Declared(env: Environment) {
    && "C" in env.classes && env.classes["C"] == [Number()]
    && "P" in env.classes && env.classes["P"] == [Resetting()]
  }

  lemma OneField(env: Environment, depth: nat, cls: string, f: Field, was: Value, x: Value)
    requires cls in env.classes && env.classes[cls] == [f] && f.alias.None? && !x.Missing?
    ensures Access(env, To(f.name), State(cls, [was])) == Ok(was)
    ensures Assign(env, depth, To(f.name), State(cls, [was]), x) ==
            match Validate(env, depth, f.annotation, x)
            case Err(error) => Err(Invalid(error))
            case Ok(y) => Ok(State(cls, [y]))
  {
    assert FieldIndex([f], f.name) == Some(0);
    OneFieldReplaced(env, depth, State(cls, [was]), 0, x);
    forall y: Value ensures [was][0 := y] == [y] {
    }
  }

  lemma ReadOne(env: Environment, depth: nat, cls: string, f: Field, was: Value)
    requires cls in env.classes && env.classes[cls] == [f] && f.alias.None?
    ensures Read(env, [To(f.name)], State(cls, [was])) == Ok(was)
  {
    OneField(env, depth, cls, f, was, Null);
    assert [To(f.name)][1..] == [];
  }

  lemma WriteOne(env: Environment, depth: nat, cls: string, f: Field, was: Value, x: Value)
    requires cls in env.classes && env.classes[cls] == [f] && f.alias.None? && !x.Missing?
    ensures Write(env, depth, [To(f.name)], State(cls, [was]), x) ==
            Assign(env, depth, To(f.name), State(cls, [was]), x)
  {
    OneField(env, depth, cls, f, was, x);
    assert [To(f.name)][1..] == [];
  }

  /** The float 2.0 written to `b` becomes the integer 2. */
  lemma CoercedIsNotReadBack(env: Environment)
    requires Declared(env)
    ensures Write(env, 0, [To("b")], State("C", [Int(1)]), Float(2.0)) == Ok(State("C", [Int(2)]))
    ensures Read(env, [To("b")], State("C", [Int(2)])) == Ok(Int(2))
  {
    OneField(env, 0, "C", Number(), Int(1), Float(2.0));
    WriteOne(env, 0, "C", Number(), Int(1), Float(2.0));
    ReadOne(env, 0, "C", Number(), Int(2));
  }

  /** The integer 5 written to `a.b` stays an integer, but `a` is reset around it. */
  lemma ResetIsNotReadBack(env: Environment)
    requires Declared(env)
    ensures var path := [To("a"), To("b")];
            && Write(env, 1, path, State("P", [State("C", [Int(1)])]), Int(5)) == Ok(State("P", [State("C", [Int(0)])]))
            && Read(env, path, State("P", [State("C", [Int(0)])])) == Ok(Int(0))
            && Validate(env, 1, Number().annotation, Int(5)) == Ok(Int(5))
  {
    assert [To("a"), To("b")][1..] == [To("b")];
    OneField(env, 1, "C", Number(), Int(1), Int(5));
    WriteOne(env, 1, "C", Number(), Int(1), Int(5));
    OneField(env, 1, "P", Resetting(), State("C", [Int(1)]), State("C", [Int(5)]));
    OneField(env, 1, "P", Resetting(), State("C", [Int(0)]), Null);
    ReadOne(env, 1, "C", Number(), Int(0));
  }
}
