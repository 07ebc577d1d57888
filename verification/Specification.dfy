/**
Printing a cyclic graph of attributes as a finite schema, with references back to what is printed already.
*/
module Specification {
  import opened Wrappers
  import opened Values

  // ----- Attributes -----------------------------------------------------------------------------

  datatype Kind =
    | AnyKind
    | MetaKind
    | NoneKind
    | MissingKind
    | BoolKind
    | IntegerKind
    | FloatKind
    | StringKind
    | UuidKind
    | DateKind
    | DatetimeKind
    | TimeKind
    | PathKind
    | StrEnum(members: seq<string>)
    | IntEnum(numbers: seq<int>)
    | Literal(values: seq<Value>)
    | Sequence
    | Mapping
    | TupleOf
    | Union
    | TypedDict(names: seq<string>, required: seq<bool>)
    | Validable
    | Alias
    | Unsupported

  /** `parts` are the attributes that a schema of this one mentions. */
  datatype Node = Node(kind: Kind, name: string, parts: seq<nat>)

  type Graph = seq<Node>

  predicate NoneTwice(names: seq<string>) {
    forall j, k | 0 <= j < k < |names| :: names[j] != names[k]
  }

  predicate ProperNode(graph: Graph, i: nat)
    requires i < |graph|
  {
    var node := graph[i];
    && (forall j | 0 <= j < |node.parts| :: node.parts[j] < |graph|)
    && match node.kind
       case Sequence => |node.parts| == 1
       case Mapping => |node.parts| == 1
       case TupleOf => true
       case Union => true
       case TypedDict(names, required) =>
         && |names| == |required| == |node.parts|
         && NoneTwice(names)
       case Validable => |node.parts| == 1 && node.parts[0] < i
       case Alias => |node.parts| == 1
       case _ => node.parts == []
  }

  /** A validable wrapper is made around an attribute that exists; the other parts may be cyclic. */
  predicate Valid(graph: Graph) {
    forall i | 0 <= i < |graph| :: ProperNode(graph, i)
  }

  function TypeName(graph: Graph, i: nat): string
    requires Valid(graph) && i < |graph|
  {
    assert ProperNode(graph, i);
    if graph[i].kind.Validable? then TypeName(graph, graph[i].parts[0]) else graph[i].name
  }

  /** An alias or a wrapper. */
  predicate Through(graph: Graph, i: nat)
    requires Valid(graph) && i < |graph|
    ensures Through(graph, i) ==> |graph[i].parts| == 1 && graph[i].parts[0] < |graph|
  {
    assert ProperNode(graph, i);
    graph[i].kind.Validable? || graph[i].kind.Alias?
  }

  // ----- Schemas --------------------------------------------------------------------------------

  datatype Keyword =
    | Type(type_: string)
    | TypeWithFormat(type_: string, format: string)
    | Enum(type_: string, values: seq<Value>)
    | AnyObject
    | Items
    | AdditionalProperties
    | PrefixItems
    | OneOf
    | TypeOf(types: seq<string>)
    | Properties(names: seq<string>, required: seq<string>)
    | Reference(name: string)
    | Nothing

  datatype Schema = Schema(id: Option<string>, keyword: Keyword, parts: seq<Schema>)

  datatype Failure = NotSupported | MixedLiteral

  function RequiredNames(names: seq<string>, required: seq<bool>): seq<string>
    requires |names| == |required|
    decreases |names|
  {
    if names == [] then []
    else
      var n := |names| - 1;
      RequiredNames(names[..n], required[..n]) + (if required[n] then [names[n]] else [])
  }

  function LiteralKeyword(values: seq<Value>): Keyword {
    if forall i | 0 <= i < |values| :: values[i].Str? then Enum("string", values)
    else if forall i | 0 <= i < |values| :: values[i].Int? || values[i].Bool? then Enum("integer", values)
    else Nothing
  }

  /** The keyword under which an attribute describes its parts; `Nothing` when it has no schema. */
  function KeywordOf(kind: Kind): Keyword
    requires kind.TypedDict? ==> |kind.names| == |kind.required|
  {
    match kind
    case AnyKind => AnyObject
    case MetaKind => AnyObject
    case NoneKind => Type("null")
    case MissingKind => Type("null")
    case BoolKind => Type("boolean")
    case IntegerKind => Type("integer")
    case FloatKind => Type("number")
    case StringKind => Type("string")
    case UuidKind => TypeWithFormat("string", "uuid")
    case DateKind => TypeWithFormat("string", "date")
    case DatetimeKind => TypeWithFormat("string", "date-time")
    case TimeKind => TypeWithFormat("string", "time")
    case PathKind => TypeWithFormat("string", "path")
    case StrEnum(members) => Enum("string", seq(|members|, j requires 0 <= j < |members| => Str(members[j])))
    case IntEnum(numbers) => Enum("integer", seq(|numbers|, j requires 0 <= j < |numbers| => Int(numbers[j])))
    case Literal(values) => LiteralKeyword(values)
    case Sequence => Items
    case Mapping => AdditionalProperties
    case TupleOf => PrefixItems
    case Union => OneOf
    case TypedDict(names, required) => Properties(names, RequiredNames(names, required))
    case _ => Nothing
  }

  // ----- The code -------------------------------------------------------------------------------

  /** The attributes whose schema is open or is known to be referenced, with the mark that it is. */
  type Guard = map<nat, bool>

  /** `{"type": name}` with nothing beside it, for one of the names a union can list. */
  predicate Compressible(schema: Schema) {
    && schema.id.None? && schema.keyword.Type?
    && schema.keyword.type_ in ["null", "string", "number", "integer", "boolean"]
  }

  function Compressed(schemas: seq<Schema>): seq<string>
    decreases |schemas|
  {
    if schemas == [] then []
    else
      var n := |schemas| - 1;
      Compressed(schemas[..n]) + (if Compressible(schemas[n]) then [schemas[n].keyword.type_] else [])
  }

  function UnionSchema(schemas: seq<Schema>): Schema {
    if schemas != [] && |Compressed(schemas)| == |schemas| then Schema(None, TypeOf(Compressed(schemas)), [])
    else Schema(None, OneOf, schemas)
  }

  function WithIdentifier(schema: Schema, identifier: string): Schema {
    schema.(id := Some("#" + identifier))
  }

  /** The schema of an attribute that is no wrapper from those of its parts. */
  function Combine(kind: Kind, schemas: seq<Schema>): Result<Schema, Failure>
    requires kind.TypedDict? ==> |kind.names| == |kind.required|
  {
    if kind.Union? then Ok(UnionSchema(schemas))
    else if KeywordOf(kind).Nothing? then Err(MixedLiteral)
    else Ok(Schema(None, KeywordOf(kind), schemas))
  }

  ghost function Unguarded(graph: Graph, guard: Guard): set<nat> {
    set i | 0 <= i < |graph| && i !in guard
  }

  /** Nothing that was guarded before is forgotten, or no longer marked. */
  ghost predicate Keeps(guard: Guard, after: Guard) {
    guard.Keys <= after.Keys && forall k <- guard.Keys | guard[k] :: after[k]
  }

  type Printed<T> = (Result<T, Failure>, Guard)

  /** `_specification`. */
  function Print(graph: Graph, guard: Guard, i: nat): (r: Printed<Schema>)
    requires Valid(graph) && i < |graph|
    ensures Keeps(guard, r.1)
    decreases Unguarded(graph, guard), 0
  {
    if i in guard then (Ok(Schema(None, Reference("#" + TypeName(graph, i)), [])), guard[i := true])
    else if graph[i].kind.Unsupported? then (Err(NotSupported), guard)
    else
      assert i in Unguarded(graph, guard) && i !in Unguarded(graph, guard[i := false]);
      assert ProperNode(graph, i);
      var (result, inside) := PrintNode(graph, guard[i := false], i);
      var after := if inside[i] || graph[i].kind.Alias? then inside else Dropped(inside, i);
      (if result.Ok? && inside[i] then Ok(WithIdentifier(result.value, TypeName(graph, i))) else result, after)
  }

  /** The factory for the kind of attribute, or the recursion into what an alias stands for. */
  function PrintNode(graph: Graph, guard: Guard, i: nat): (r: Printed<Schema>)
    requires Valid(graph) && i < |graph| && !graph[i].kind.Unsupported?
    ensures Keeps(guard, r.1)
    decreases Unguarded(graph, guard), |graph[i].parts| + 2
  {
    var node := graph[i];
    assert ProperNode(graph, i);
    if node.kind.Validable? || node.kind.Alias? then
      Print(graph, guard, node.parts[0])
    else
      var (results, after) := PrintAll(graph, guard, node.parts);
      (if results.Ok? then Combine(node.kind, results.value) else Err(results.error), after)
  }

  /** The schemas of the parts, up to the first that fails. */
  function PrintAll(graph: Graph, guard: Guard, parts: seq<nat>): (r: Printed<seq<Schema>>)
    requires Valid(graph) && forall j | 0 <= j < |parts| :: parts[j] < |graph|
    ensures Keeps(guard, r.1)
    ensures r.0.Ok? ==> |r.0.value| == |parts|
    decreases Unguarded(graph, guard), |parts| + 1
  {
    if parts == [] then (Ok([]), guard)
    else
      var (first, between) := Print(graph, guard, parts[0]);
      match first
      case Err(failure) => (Err(failure), between)
      case Ok(schema) =>
        assert between.Keys == guard.Keys || Unguarded(graph, between) <= Unguarded(graph, guard);
        var (rest, after) := PrintAll(graph, between, parts[1..]);
        match rest
        case Err(failure) => (Err(failure), after)
        case Ok(schemas) => (Ok([schema] + schemas), after)
  }

  function Identifier(graph: Graph, i: nat): string
    requires Valid(graph) && i < |graph|
  {
    "#" + TypeName(graph, i)
  }

  /** A `$ref` to the identifier occurs in the schema. */
  ghost predicate Refers(schema: Schema, x: string) {
    schema.keyword == Reference(x) || exists j :: 0 <= j < |schema.parts| && Refers(schema.parts[j], x)
  }

  /** The `$id` occurs in the schema. */
  ghost predicate Identifies(schema: Schema, x: string) {
    schema.id == Some(x) || exists j :: 0 <= j < |schema.parts| && Identifies(schema.parts[j], x)
  }

  /** A union lists type names only when every alternative is no more than that. */
  lemma {:induction false} CompressedIsShorter(schemas: seq<Schema>)
    ensures |Compressed(schemas)| <= |schemas|
    ensures |Compressed(schemas)| == |schemas| ==>
              forall j | 0 <= j < |schemas| ::
                Compressible(schemas[j]) && Compressed(schemas)[j] == schemas[j].keyword.type_
  {
    if schemas != [] {
      CompressedIsShorter(schemas[..|schemas| - 1]);
    }
  }

  /** The kinds that are described by the name of a type alone. */
  predicate Simple(kind: Kind) {
    kind.NoneKind? || kind.MissingKind? || kind.BoolKind? || kind.IntegerKind? || kind.FloatKind? || kind.StringKind?
  }

  lemma TypeIsSimple(kind: Kind)
    requires kind.TypedDict? ==> |kind.names| == |kind.required|
    ensures KeywordOf(kind).Type? <==> Simple(kind)
  {
  }

  /** The guard without an attribute that is left unmarked. */
  function Dropped(guard: Guard, i: nat): Guard {
    map k | k in guard && k != i :: guard[k]
  }
}
