/**
What the export and the update of an instance give, said of the value, the arguments and the result.
*/
module Exporting {
  import opened Wrappers
  import opened Values
  import opened Annotations
  import opened Validating
  import opened States

  /** The name that a field is exported under. */
  ghost predicate ExportedAs(field: Field, name: string) {
    field.alias == Some(name) || (field.alias.None? && field.name == name)
  }

  ghost predicate NamedAs(fields: seq<Field>, names: seq<string>) {
    |names| == |fields| && forall i | 0 <= i < |fields| :: ExportedAs(fields[i], names[i])
  }

  /** The result is the export of the value: instances become dictionaries of their fields that are not missing, in
      order and under their aliases or else names; iterables become lists of the same length; dictionaries keep
      their keys; anything else stays. */
  ghost predicate Exports(env: Environment, v: Value, r: Value)
    decreases v, 1
  {
    match v
    case State(_, _) =>
      if IsInstance(env, v) then
        r.Dict? && exists names, values, entries ::
          && NamedAs(env.classes[v.cls], names)
          && FieldsExport(env, v, values)
          && Selected(names, values, entries)
          && r.entries == DictOf(entries)
      else r == v
    case Dict(entries) =>
      && r.Dict? && |r.entries| == |entries|
      && forall i | 0 <= i < |entries| ::
           r.entries[i].0 == entries[i].0 && Exports(env, entries[i].1, r.entries[i].1)
    case Tuple(items) => r.List? && ItemsExport(env, v, r.items)
    case List(items) => r.List? && ItemsExport(env, v, r.items)
    case Set(items) => r.List? && ItemsExport(env, v, r.items)
    case _ => r == v
  }

  ghost predicate ItemsExport(env: Environment, v: Value, results: seq<Value>)
    requires v.Tuple? || v.List? || v.Set?
    decreases v, 0
  {
    |results| == |v.items| && forall i | 0 <= i < |v.items| :: Exports(env, v.items[i], results[i])
  }

  ghost predicate FieldsExport(env: Environment, v: Value, values: seq<Option<Value>>)
    requires IsInstance(env, v)
    decreases v, 0
  {
    && |values| == |v.fields|
    && forall i | 0 <= i < |values| ::
         (values[i].None? <==> v.fields[i] == Missing)
         && (values[i].Some? ==> Exports(env, v.fields[i], values[i].value))
  }

  lemma {:induction false} ExportIff(env: Environment, v: Value, r: Value)
    ensures Export(env, v) == r <==> Exports(env, v, r)
    decreases v, 1
  {
    match v
    case State(_, _) => if IsInstance(env, v) { StateExportIff(env, v, r); }
    case Dict(entries) =>
      forall i, x | 0 <= i < |entries| ensures Export(env, entries[i].1) == x <==> Exports(env, entries[i].1, x) {
        ExportIff(env, entries[i].1, x);
      }
      if Exports(env, v, r) {
        forall i | 0 <= i < |entries| ensures r.entries[i] == (entries[i].0, Export(env, entries[i].1)) {
          ExportIff(env, entries[i].1, r.entries[i].1);
        }
        assert r.entries == Export(env, v).entries;
      }
    case Tuple(_) => ItemsExportIff(env, v, r);
    case List(_) => ItemsExportIff(env, v, r);
    case Set(_) => ItemsExportIff(env, v, r);
    case _ =>
  }

  lemma {:induction false} ItemsExportIff(env: Environment, v: Value, r: Value)
    requires v.Tuple? || v.List? || v.Set?
    ensures r == List(ExportAll(env, v)) <==> r.List? && ItemsExport(env, v, r.items)
    decreases v, 0
  {
    forall i, x | 0 <= i < |v.items| ensures Export(env, v.items[i]) == x <==> Exports(env, v.items[i], x) {
      ExportIff(env, v.items[i], x);
    }
    if r.List? && ItemsExport(env, v, r.items) {
      forall i | 0 <= i < |v.items| ensures r.items[i] == Export(env, v.items[i]) {
        ExportIff(env, v.items[i], r.items[i]);
      }
      assert r.items == ExportAll(env, v);
    }
  }

  lemma {:induction false} StateExportIff(env: Environment, v: Value, r: Value)
    requires IsInstance(env, v)
    ensures r == Dict(DictOf(Present(ExportFields(env, v)))) <==> Exports(env, v, r)
    decreases v, 0
  {
    var fields, pairs := env.classes[v.cls], ExportFields(env, v);
    forall i, x | 0 <= i < |v.fields| ensures Export(env, v.fields[i]) == x <==> Exports(env, v.fields[i], x) {
      ExportIff(env, v.fields[i], x);
    }
    forall names, values: seq<Option<Value>> | NamedAs(fields, names) && FieldsExport(env, v, values)
      ensures Paired(names, values) == pairs
    {
      forall i | 0 <= i < |fields| ensures Paired(names, values)[i] == pairs[i] {
        assert ExportedAs(fields[i], names[i]);
        if values[i].Some? {
          ExportIff(env, v.fields[i], values[i].value);
        }
      }
    }
    forall names, values, entries |
        NamedAs(fields, names) && FieldsExport(env, v, values) && Selected(names, values, entries)
      ensures entries == Present(pairs)
    {
      SelectedIff(names, values, entries);
    }
    var names := seq(|fields|, i requires 0 <= i < |fields| =>
      if fields[i].alias.Some? then fields[i].alias.value else fields[i].name);
    var values := seq(|fields|, i requires 0 <= i < |fields| =>
      if v.fields[i].Missing? then None else Some(Export(env, v.fields[i])));
    assert NamedAs(fields, names) && FieldsExport(env, v, values);
    SelectedIff(names, values, Present(pairs));
  }

  // ----- Updates --------------------------------------------------------------------------------

  /** The argument is for the field, and none after it is. */
  ghost predicate IsLatest(field: Field, arguments: seq<(string, Value)>, k: nat) {
    && k < |arguments|
    && (arguments[k].0 == field.name || field.alias == Some(arguments[k].0))
    && forall j | k < j < |arguments| :: arguments[j].0 != field.name && field.alias != Some(arguments[j].0)
  }

  lemma {:induction false} UpdateIff(field: Field, arguments: seq<(string, Value)>, x: Value)
    ensures Update(field, arguments) == Some(x) <==>
            x != Missing && exists k: nat :: IsLatest(field, arguments, k) && arguments[k].1 == x
    decreases |arguments|
  {
    if arguments != [] {
      var n := |arguments| - 1;
      UpdateIff(field, arguments[..n], x);
      if arguments[n].0 == field.name || field.alias == Some(arguments[n].0) {
        assert IsLatest(field, arguments, n);
      } else {
        forall k: nat | k < n
          ensures IsLatest(field, arguments, k) <==> IsLatest(field, arguments[..n], k)
        {
        }
      }
    }
  }

  /** A field that was given another value holds what its annotation makes of it, and every other field holds
      what it held. */
  ghost predicate FieldReplaced(env: Environment, depth: nat, field: Field, was: Value,
                                arguments: seq<(string, Value)>, r: Value)
  {
    if exists k: nat :: IsLatest(field, arguments, k) && arguments[k].1 != Missing
    then exists k: nat :: IsLatest(field, arguments, k) && Becomes(env, depth, field.annotation, arguments[k].1, r)
    else r == was
  }

  lemma FieldReplacedIff(env: Environment, depth: nat, v: Value, arguments: seq<(string, Value)>, i: nat, r: Value)
    requires IsInstance(env, v) && i < |v.fields|
    ensures ReplaceFields(env, depth, v, arguments)[i] == Ok(r) <==>
            FieldReplaced(env, depth, env.classes[v.cls][i], v.fields[i], arguments, r)
  {
    var field := env.classes[v.cls][i];
    forall k: nat, l: nat | IsLatest(field, arguments, k) && IsLatest(field, arguments, l) ensures k == l {
    }
    if exists k: nat :: IsLatest(field, arguments, k) && arguments[k].1 != Missing {
      var k: nat :| IsLatest(field, arguments, k) && arguments[k].1 != Missing;
      UpdateIff(field, arguments, arguments[k].1);
      ValidateIff(env, depth, field.annotation, arguments[k].1, r);
    } else {
      UpdateIff(field, arguments, if Update(field, arguments).Some? then Update(field, arguments).value else Missing);
      assert Update(field, arguments).None?;
    }
  }

  /** An update succeeds with exactly the instances of the class whose fields are those. */
  lemma ReplaceIff(env: Environment, depth: nat, v: Value, arguments: seq<(string, Value)>, r: Value)
    requires IsInstance(env, v)
    ensures Replace(env, depth, v, arguments) == Ok(r) <==>
            && r.State? && r.cls == v.cls && |r.fields| == |v.fields|
            && forall i | 0 <= i < |v.fields| ::
                 FieldReplaced(env, depth, env.classes[v.cls][i], v.fields[i], arguments, r.fields[i])
  {
    var parts := ReplaceFields(env, depth, v, arguments);
    if r.State? && |r.fields| == |v.fields| {
      forall i | 0 <= i < |parts|
        ensures parts[i] == Ok(r.fields[i]) <==>
                FieldReplaced(env, depth, env.classes[v.cls][i], v.fields[i], arguments, r.fields[i])
      {
        FieldReplacedIff(env, depth, v, arguments, i, r.fields[i]);
      }
      CollectIff(parts, r.fields);
    }
    CollectIsAll(parts);
  }
}
