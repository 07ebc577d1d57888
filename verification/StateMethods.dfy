/**
The loops of the State methods, which fill an object or a dictionary field by field.
*/
module StateMethods {
  import opened Wrappers
  import opened Values
  import opened Annotations
  import opened States
  import opened RoundTrip

  /** An error among the first results is the error of all of them. */
  lemma {:induction false} CollectStops<T>(results: seq<Result<T, Error>>, k: nat)
    requires k <= |results| && Collect(results[..k]).Err?
    ensures Collect(results) == Collect(results[..k])
    decreases |results|
  {
    if k < |results| {
      var n := |results| - 1;
      assert results[..n][..k] == results[..k];
      CollectStops(results[..n], k);
    } else {
      assert results[..k] == results;
    }
  }

  lemma CollectNext<T>(results: seq<Result<T, Error>>, k: nat)
    requires k < |results| && Collect(results[..k]).Ok?
    ensures Collect(results[..k + 1]) ==
            match results[k]
            case Err(error) => Err(error)
            case Ok(value) => Ok(Collect(results[..k]).value + [value])
  {
    assert results[..k + 1][..k] == results[..k];
  }

  /** `State.__init__`. */
  method Initialize(env: Environment, depth: nat, cls: string, arguments: seq<(Value, Value)>) returns (r: Validated)
    requires cls in env.classes
    ensures r == Construct(env, depth, cls, arguments)
  {
    var fields := env.classes[cls];
    ghost var parts := ByField(env, depth, fields, arguments);
    var values := [];
    for i := 0 to |fields|
      invariant Collect(parts[..i]) == Ok(values)
    {
      var result := Validate(env, depth, fields[i].annotation, Source(fields[i], arguments));
      CollectNext(parts, i);
      if result.Err? {
        CollectStops(parts, i + 1);
        return Err(result.error);
      }
      values := values + [result.value];
    }
    assert parts[..|fields|] == parts;
    return Ok(State(cls, values));
  }

  /** `State.to_mapping`: the dictionary it fills is the export of the instance. */
  method ToMapping(env: Environment, v: Value) returns (mapping: seq<(Value, Value)>)
    requires IsInstance(env, v)
    ensures Dict(mapping) == Export(env, v)
  {
    var fields := env.classes[v.cls];
    ghost var parts := ExportFields(env, v);
    mapping := [];
    for i := 0 to |fields|
      invariant mapping == DictOf(Present(parts[..i]))
    {
      assert parts[..i + 1][..i] == parts[..i];
      if !v.fields[i].Missing? {
        var exported := Export(env, v.fields[i]);
        var pair := (ExportKey(fields[i]), exported);
        assert Present(parts[..i + 1]) == Present(parts[..i]) + [pair];
        assert (Present(parts[..i]) + [pair])[..|Present(parts[..i])|] == Present(parts[..i]);
        mapping := Put(mapping, pair.0, pair.1);
      } else {
        assert Present(parts[..i + 1]) == Present(parts[..i]);
      }
    }
    assert parts[..|fields|] == parts;
  }

  /** The field that an argument refers to, by name or alias. */
  predicate Refers(field: Field, key: string) {
    key == field.name || field.alias == Some(key)
  }

  /** `alias_to_name.get(key, key)` for a valid key. */
  function CanonicalName(fields: seq<Field>, key: string): string {
    if fields == [] then key
    else if (if fields[0].alias.Some? then fields[0].alias.value else fields[0].name) == key then fields[0].name
    else CanonicalName(fields[1..], key)
  }

  lemma {:induction false} CanonicalOfField(fields: seq<Field>, i: nat, key: string)
    requires DistinctFields(fields) && i < |fields| && Refers(fields[i], key)
    ensures CanonicalName(fields, key) == fields[i].name
    decreases |fields|
  {
    if i > 0 {
      assert !Clash(fields[0], fields[i]);
      var rest := fields[1..];
      forall j, k | 0 <= j < k < |rest| ensures !Clash(rest[j], rest[k]) {
        assert !Clash(fields[j + 1], fields[k + 1]);
      }
      assert rest[i - 1] == fields[i];
      CanonicalOfField(rest, i - 1, key);
    } else if key == fields[0].name && fields[0].alias.Some? {
      NameIsOwn(fields[1..], fields[0], key);
    }
  }

  lemma {:induction false} NameIsOwn(fields: seq<Field>, field: Field, key: string)
    requires forall i | 0 <= i < |fields| :: !Clash(field, fields[i])
    requires key == field.name
    ensures CanonicalName(fields, key) == key
  {
    if fields != [] {
      assert forall i | 0 <= i < |fields| - 1 :: fields[1..][i] == fields[i + 1];
      NameIsOwn(fields[1..], field, key);
    }
  }

  lemma ReferredOnce(fields: seq<Field>, i: nat, j: nat, key: string)
    requires DistinctFields(fields) && i < |fields| && j < |fields|
    requires Refers(fields[i], key) && Refers(fields[j], key)
    ensures i == j
  {
    assert i < j ==> !Clash(fields[i], fields[j]);
    assert j < i ==> !Clash(fields[j], fields[i]);
  }

  lemma NamesDiffer(fields: seq<Field>, i: nat, j: nat)
    requires DistinctFields(fields) && i < |fields| && j < |fields| && i != j
    ensures fields[i].name != fields[j].name
  {
    assert !Clash(fields[if i < j then i else j], fields[if i < j then j else i]);
  }

  /** What the canonical updates hold for a field. */
  ghost function Held(updates: map<string, Value>, field: Field): Option<Value> {
    if field.name in updates && !updates[field.name].Missing? then Some(updates[field.name]) else None
  }

  /** Recording an argument for field `j` under its canonical name changes what is held for that field alone. */
  lemma RecordForField(fields: seq<Field>, updates: map<string, Value>, key: string, value: Value, j: nat, i: nat)
    requires DistinctFields(fields) && j < |fields| && Refers(fields[j], key) && i < |fields|
    ensures Held(updates[CanonicalName(fields, key) := value], fields[i]) ==
            if !Refers(fields[i], key) then Held(updates, fields[i])
            else if value.Missing? then None else Some(value)
  {
    CanonicalOfField(fields, j, key);
    if Refers(fields[i], key) {
      ReferredOnce(fields, i, j, key);
    } else {
      NamesDiffer(fields, i, j);
    }
  }

  /** What is held after recording one more argument. */
  function Record(fields: seq<Field>, updates: map<string, Value>, key: string, value: Value): map<string, Value> {
    if exists j :: 0 <= j < |fields| && Refers(fields[j], key)
    then updates[CanonicalName(fields, key) := value] else updates
  }

  lemma RecordArgument(fields: seq<Field>, arguments: seq<(string, Value)>, updates: map<string, Value>, i: nat)
    requires DistinctFields(fields) && arguments != [] && i < |fields|
    requires Held(updates, fields[i]) == Update(fields[i], arguments[..|arguments| - 1])
    ensures var (key, value) := arguments[|arguments| - 1];
            Held(Record(fields, updates, key, value), fields[i]) == Update(fields[i], arguments)
  {
    var (key, value) := arguments[|arguments| - 1];
    if exists j :: 0 <= j < |fields| && Refers(fields[j], key) {
      var j :| 0 <= j < |fields| && Refers(fields[j], key);
      RecordForField(fields, updates, key, value, j, i);
    }
  }

  /** Arguments that refer to no field leave the instance as it is. */
  lemma {:induction false} NothingReferred(field: Field, arguments: seq<(string, Value)>)
    requires forall k | 0 <= k < |arguments| :: !Refers(field, arguments[k].0)
    ensures Update(field, arguments) == None
    decreases |arguments|
  {
    if arguments != [] {
      NothingReferred(field, arguments[..|arguments| - 1]);
    }
  }

  lemma NothingReplaced(env: Environment, depth: nat, v: Value, arguments: seq<(string, Value)>)
    requires IsInstance(env, v)
    requires forall i | 0 <= i < |v.fields| :: forall k | 0 <= k < |arguments| ::
               !Refers(env.classes[v.cls][i], arguments[k].0)
    ensures Replace(env, depth, v, arguments) == Ok(v)
  {
    forall i | 0 <= i < |v.fields| ensures ReplaceFields(env, depth, v, arguments)[i] == Ok(v.fields[i]) {
      NothingReferred(env.classes[v.cls][i], arguments);
    }
    CollectIff(ReplaceFields(env, depth, v, arguments), v.fields);
  }

  /** `State.__replace__`. */
  method ReplaceLoop(env: Environment, depth: nat, v: Value, arguments: seq<(string, Value)>) returns (r: Validated)
    requires IsInstance(env, v) && DistinctFields(env.classes[v.cls])
    ensures r == Replace(env, depth, v, arguments)
  {
    var fields := env.classes[v.cls];
    if forall i | 0 <= i < |fields| :: forall k | 0 <= k < |arguments| :: !Refers(fields[i], arguments[k].0) {
      NothingReplaced(env, depth, v, arguments);
      return Ok(v);
    }
    ghost var parts := ReplaceFields(env, depth, v, arguments);
    var updates: map<string, Value> := map[];
    for k := 0 to |arguments|
      invariant forall i | 0 <= i < |fields| :: Held(updates, fields[i]) == Update(fields[i], arguments[..k])
    {
      var (key, value) := arguments[k];
      assert arguments[..k + 1][..k] == arguments[..k];
      forall i | 0 <= i < |fields|
        ensures Held(Record(fields, updates, key, value), fields[i]) == Update(fields[i], arguments[..k + 1])
      {
        RecordArgument(fields, arguments[..k + 1], updates, i);
      }
      updates := Record(fields, updates, key, value);
    }
    assert arguments[..|arguments|] == arguments;
    var values := [];
    for i := 0 to |fields|
      invariant Collect(parts[..i]) == Ok(values)
    {
      CollectNext(parts, i);
      if fields[i].name in updates && !updates[fields[i].name].Missing? {
        var result := Validate(env, depth, fields[i].annotation, updates[fields[i].name]);
        if result.Err? {
          CollectStops(parts, i + 1);
          return Err(result.error);
        }
        values := values + [result.value];
      } else {
        values := values + [v.fields[i]];
      }
    }
    assert parts[..|fields|] == parts;
    return Ok(State(v.cls, values));
  }
}
