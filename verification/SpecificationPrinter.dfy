/**
The printer with its mutable recursion guard.
*/
module SpecificationPrinter {
  import opened Wrappers
  import opened Values
  import opened Specification

  /** The printed parts so far, together with what printing the others gives, are the whole. */
  ghost predicate Resumes(graph: Graph, before: Guard, parts: seq<nat>, printed: seq<Schema>, guard: Guard, k: nat)
    requires Valid(graph) && k <= |parts| && forall j | 0 <= j < |parts| :: parts[j] < |graph|
  {
    && Keeps(before, guard)
    && var (rest, after) := PrintAll(graph, guard, parts[k..]);
       PrintAll(graph, before, parts) == (if rest.Ok? then Ok(printed + rest.value) else rest, after)
  }

  lemma ResumesNext(graph: Graph, before: Guard, parts: seq<nat>, printed: seq<Schema>, guard: Guard, k: nat)
    requires Valid(graph) && k < |parts| && forall j | 0 <= j < |parts| :: parts[j] < |graph|
    requires Resumes(graph, before, parts, printed, guard, k)
    ensures var (result, after) := Print(graph, guard, parts[k]);
            if result.Ok? then Resumes(graph, before, parts, printed + [result.value], after, k + 1)
            else PrintAll(graph, before, parts) == (Err(result.error), after)
  {
    assert parts[k..][0] == parts[k] && parts[k..][1..] == parts[k + 1..];
    var (result, after) := Print(graph, guard, parts[k]);
    if result.Ok? {
      var rest := PrintAll(graph, after, parts[k + 1..]).0;
      if rest.Ok? {
        assert printed + ([result.value] + rest.value) == printed + [result.value] + rest.value;
      }
    }
  }

  lemma ResumesFromStart(graph: Graph, guard: Guard, parts: seq<nat>)
    requires Valid(graph) && forall j | 0 <= j < |parts| :: parts[j] < |graph|
    ensures Resumes(graph, guard, parts, [], guard, 0)
  {
    assert parts[0..] == parts;
    var (all, _) := PrintAll(graph, guard, parts);
    assert all.Ok? ==> [] + all.value == all.value;
  }

  lemma ResumesAtEnd(graph: Graph, before: Guard, parts: seq<nat>, printed: seq<Schema>, guard: Guard)
    requires Valid(graph) && forall j | 0 <= j < |parts| :: parts[j] < |graph|
    requires Resumes(graph, before, parts, printed, guard, |parts|)
    ensures PrintAll(graph, before, parts) == (Ok(printed), guard)
  {
    assert parts[|parts|..] == [];
    assert printed + [] == printed;
  }

  class Printer {
    var guard: Guard

    constructor ()
      ensures guard == map[]
    {
      guard := map[];
    }

    method PrintAttribute(graph: Graph, i: nat) returns (result: Result<Schema, Failure>)
      requires Valid(graph) && i < |graph|
      modifies this
      ensures (result, guard) == Print(graph, old(guard), i)
      decreases Unguarded(graph, guard), 0
    {
      if i in guard {
        guard := guard[i := true];
        return Ok(Schema(None, Reference("#" + TypeName(graph, i)), []));
      }
      if graph[i].kind.Unsupported? {
        return Err(NotSupported);
      }
      assert i in Unguarded(graph, guard) && i !in Unguarded(graph, guard[i := false]);
      assert ProperNode(graph, i);
      guard := guard[i := false];
      result := PrintKind(graph, i);
      if guard[i] {
        if result.Ok? {
          result := Ok(WithIdentifier(result.value, TypeName(graph, i)));
        }
      } else if !graph[i].kind.Alias? {
        guard := map k | k in guard && k != i :: guard[k];
      }
    }

    method PrintKind(graph: Graph, i: nat) returns (result: Result<Schema, Failure>)
      requires Valid(graph) && i < |graph| && !graph[i].kind.Unsupported?
      modifies this
      ensures (result, guard) == PrintNode(graph, old(guard), i)
      decreases Unguarded(graph, guard), |graph[i].parts| + 2
    {
      var node := graph[i];
      assert ProperNode(graph, i);
      match node.kind {
        case Validable =>
          result := PrintAttribute(graph, node.parts[0]);
        case Alias =>
          result := PrintAttribute(graph, node.parts[0]);
        case TupleOf =>
          result := PrintTuple(graph, node.parts);
        case Union =>
          result := PrintUnion(graph, node.parts);
        case TypedDict(names, required) =>
          result := PrintTypedDict(graph, names, required, node.parts);
        case Sequence =>
          ghost var before := guard;
          result := PrintAttribute(graph, node.parts[0]);
          AloneIsAll(graph, before, node.parts);
          if result.Ok? {
            result := Ok(Schema(None, Items, [result.value]));
          }
        case Mapping =>
          ghost var before := guard;
          result := PrintAttribute(graph, node.parts[0]);
          AloneIsAll(graph, before, node.parts);
          if result.Ok? {
            result := Ok(Schema(None, AdditionalProperties, [result.value]));
          }
        case AnyKind =>
          result := Ok(Schema(None, AnyObject, []));
        case MetaKind =>
          result := Ok(Schema(None, AnyObject, []));
        case NoneKind =>
          result := Ok(Schema(None, Type("null"), []));
        case MissingKind =>
          result := Ok(Schema(None, Type("null"), []));
        case BoolKind =>
          result := Ok(Schema(None, Type("boolean"), []));
        case IntegerKind =>
          result := Ok(Schema(None, Type("integer"), []));
        case FloatKind =>
          result := Ok(Schema(None, Type("number"), []));
        case StringKind =>
          result := Ok(Schema(None, Type("string"), []));
        case UuidKind =>
          result := Ok(Schema(None, TypeWithFormat("string", "uuid"), []));
        case DateKind =>
          result := Ok(Schema(None, TypeWithFormat("string", "date"), []));
        case DatetimeKind =>
          result := Ok(Schema(None, TypeWithFormat("string", "date-time"), []));
        case TimeKind =>
          result := Ok(Schema(None, TypeWithFormat("string", "time"), []));
        case PathKind =>
          result := Ok(Schema(None, TypeWithFormat("string", "path"), []));
        case StrEnum(members) =>
          var values := seq(|members|, j requires 0 <= j < |members| => Str(members[j]));
          result := Ok(Schema(None, Enum("string", values), []));
        case IntEnum(numbers) =>
          var values := seq(|numbers|, j requires 0 <= j < |numbers| => Int(numbers[j]));
          result := Ok(Schema(None, Enum("integer", values), []));
        case Literal(values) =>
          result := if LiteralKeyword(values).Nothing? then Err(MixedLiteral)
                    else Ok(Schema(None, LiteralKeyword(values), []));
      }
    }

    method PrintTuple(graph: Graph, parts: seq<nat>) returns (result: Result<Schema, Failure>)
      requires Valid(graph) && forall j | 0 <= j < |parts| :: parts[j] < |graph|
      modifies this
      ensures var (results, after) := PrintAll(graph, old(guard), parts);
              guard == after && result == if results.Ok? then Combine(TupleOf, results.value) else Err(results.error)
      decreases Unguarded(graph, guard), |parts| + 1
    {
      ghost var before := guard;
      var elements: seq<Schema> := [];
      ResumesFromStart(graph, before, parts);
      for k := 0 to |parts|
        invariant |elements| == k && Resumes(graph, before, parts, elements, guard, k)
      {
        ResumesNext(graph, before, parts, elements, guard, k);
        var element := PrintAttribute(graph, parts[k]);
        if element.Err? {
          return element;
        }
        elements := elements + [element.value];
      }
      ResumesAtEnd(graph, before, parts, elements, guard);
      return Ok(Schema(None, PrefixItems, elements));
    }

    method PrintUnion(graph: Graph, parts: seq<nat>) returns (result: Result<Schema, Failure>)
      requires Valid(graph) && forall j | 0 <= j < |parts| :: parts[j] < |graph|
      modifies this
      ensures var (results, after) := PrintAll(graph, old(guard), parts);
              guard == after && result == if results.Ok? then Combine(Union, results.value) else Err(results.error)
      decreases Unguarded(graph, guard), |parts| + 1
    {
      ghost var before := guard;
      var compressed: seq<string> := [];
      var alternatives: seq<Schema> := [];
      ResumesFromStart(graph, before, parts);
      for k := 0 to |parts|
        invariant |alternatives| == k && Resumes(graph, before, parts, alternatives, guard, k)
        invariant compressed == Compressed(alternatives)
      {
        ResumesNext(graph, before, parts, alternatives, guard, k);
        var alternative := PrintAttribute(graph, parts[k]);
        if alternative.Err? {
          return alternative;
        }
        assert (alternatives + [alternative.value])[..k] == alternatives;
        alternatives := alternatives + [alternative.value];
        if Compressible(alternative.value) {
          compressed := compressed + [alternative.value.keyword.type_];
        }
      }
      ResumesAtEnd(graph, before, parts, alternatives, guard);
      if alternatives != [] && |compressed| == |alternatives| {
        return Ok(Schema(None, TypeOf(compressed), []));
      }
      return Ok(Schema(None, OneOf, alternatives));
    }

    method PrintTypedDict(graph: Graph, names: seq<string>, required: seq<bool>, parts: seq<nat>)
        returns (result: Result<Schema, Failure>)
      requires Valid(graph) && forall j | 0 <= j < |parts| :: parts[j] < |graph|
      requires |names| == |required| == |parts|
      modifies this
      ensures var (results, after) := PrintAll(graph, old(guard), parts);
              && guard == after
              && result == if results.Ok? then Combine(TypedDict(names, required), results.value)
                           else Err(results.error)
      decreases Unguarded(graph, guard), |parts| + 1
    {
      ghost var before := guard;
      var requiredNames: seq<string> := [];
      var properties: seq<Schema> := [];
      ResumesFromStart(graph, before, parts);
      for k := 0 to |parts|
        invariant |properties| == k && Resumes(graph, before, parts, properties, guard, k)
        invariant requiredNames == RequiredNames(names[..k], required[..k])
      {
        ResumesNext(graph, before, parts, properties, guard, k);
        var property := PrintAttribute(graph, parts[k]);
        if property.Err? {
          return property;
        }
        properties := properties + [property.value];
        assert names[..k + 1][..k] == names[..k] && required[..k + 1][..k] == required[..k];
        if required[k] {
          requiredNames := requiredNames + [names[k]];
        }
      }
      ResumesAtEnd(graph, before, parts, properties, guard);
      assert names[..|names|] == names && required[..|names|] == required;
      return Ok(Schema(None, Properties(names, requiredNames), properties));
    }
  }

  lemma AloneIsAll(graph: Graph, guard: Guard, parts: seq<nat>)
    requires Valid(graph) && |parts| == 1 && parts[0] < |graph|
    ensures var (result, after) := Print(graph, guard, parts[0]);
            PrintAll(graph, guard, parts) == (if result.Ok? then Ok([result.value]) else Err(result.error), after)
  {
    var result := Print(graph, guard, parts[0]).0;
    if result.Ok? {
      assert [result.value] + [] == [result.value];
    }
  }
}
