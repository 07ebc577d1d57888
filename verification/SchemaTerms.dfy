/**
What the keywords of a schema demand of a JSON value, and what each kind of attribute demands.
*/
module SchemaTerms {
  import opened Wrappers
  import opened Values
  import opened Specification

  datatype Format = Uuids | Dates | Datetimes | Times | FilePaths

  /** The demand on a value, apart from what is demanded of its parts.  A record has just the members, each of
      which may be required. */
  datatype Demand =
    | AnObject
    | ANull
    | ABoolean
    | AnInteger
    | ANumber
    | AText
    | ATextFor(format: Format)
    | OneOfTexts(texts: seq<Value>)
    | OneOfNumbers(numbers: seq<Value>)
    | AnArray
    | AFixedArray
    | ADictionary
    | ARecord(members: seq<(string, bool)>)
    | AChoice
    | NoDemand

  predicate AllTexts(values: seq<Value>) {
    forall i | 0 <= i < |values| :: values[i].Str?
  }

  /** As for Python, booleans are integers. */
  predicate AllNumbers(values: seq<Value>) {
    forall i | 0 <= i < |values| :: values[i].Int? || values[i].Bool?
  }

  /** What values of the kind look like. */
  ghost function DemandOf(kind: Kind): Demand
    requires kind.TypedDict? ==> |kind.names| == |kind.required|
  {
    match kind
    case AnyKind => AnObject
    case MetaKind => AnObject
    case NoneKind => ANull
    case MissingKind => ANull
    case BoolKind => ABoolean
    case IntegerKind => AnInteger
    case FloatKind => ANumber
    case StringKind => AText
    case UuidKind => ATextFor(Uuids)
    case DateKind => ATextFor(Dates)
    case DatetimeKind => ATextFor(Datetimes)
    case TimeKind => ATextFor(Times)
    case PathKind => ATextFor(FilePaths)
    case StrEnum(members) => OneOfTexts(seq(|members|, j requires 0 <= j < |members| => Str(members[j])))
    case IntEnum(numbers) => OneOfNumbers(seq(|numbers|, j requires 0 <= j < |numbers| => Int(numbers[j])))
    case Literal(values) =>
      if AllTexts(values) then OneOfTexts(values) else if AllNumbers(values) then OneOfNumbers(values) else NoDemand
    case Sequence => AnArray
    case Mapping => ADictionary
    case TupleOf => AFixedArray
    case Union => AChoice
    case TypedDict(names, required) =>
      ARecord(seq(|names|, j requires 0 <= j < |names| => (names[j], required[j])))
    case _ => NoDemand
  }

  /** How JSON Schema reads a keyword. */
  ghost function Reading(keyword: Keyword): Demand {
    match keyword
    case Type(type_) =>
      if type_ == "null" then ANull
      else if type_ == "boolean" then ABoolean
      else if type_ == "integer" then AnInteger
      else if type_ == "number" then ANumber
      else if type_ == "string" then AText
      else NoDemand
    case TypeWithFormat(type_, format) =>
      if type_ != "string" then NoDemand
      else if format == "uuid" then ATextFor(Uuids)
      else if format == "date" then ATextFor(Dates)
      else if format == "date-time" then ATextFor(Datetimes)
      else if format == "time" then ATextFor(Times)
      else if format == "path" then ATextFor(FilePaths)
      else NoDemand
    case Enum(type_, values) =>
      if type_ == "string" && AllTexts(values) then OneOfTexts(values)
      else if type_ == "integer" && AllNumbers(values) then OneOfNumbers(values)
      else NoDemand
    case AnyObject => AnObject
    case Items => AnArray
    case AdditionalProperties => ADictionary
    case PrefixItems => AFixedArray
    case OneOf => AChoice
    case Properties(names, required) =>
      ARecord(seq(|names|, j requires 0 <= j < |names| => (names[j], names[j] in required)))
    case _ => NoDemand
  }

  // ----- Required names -------------------------------------------------------------------------

  /** The names at the positions, which go up and are just those that are required. */
  ghost predicate Lists(names: seq<string>, required: seq<bool>, listed: seq<string>, positions: seq<nat>)
    requires |names| == |required|
  {
    && |positions| == |listed|
    && (forall k | 0 <= k < |positions| ::
          positions[k] < |names| && required[positions[k]] && listed[k] == names[positions[k]])
    && (forall k, l | 0 <= k < l < |positions| :: positions[k] < positions[l])
    && (forall j | 0 <= j < |names| && required[j] :: j in positions)
  }

  /** A printed dictionary type lists exactly the names whose member is required, in order and once each. */
  lemma {:induction false} RequiredAreListed(names: seq<string>, required: seq<bool>) returns (positions: seq<nat>)
    requires |names| == |required|
    ensures Lists(names, required, RequiredNames(names, required), positions)
    decreases |names|
  {
    if names == [] {
      positions := [];
    } else {
      var n := |names| - 1;
      var before := RequiredAreListed(names[..n], required[..n]);
      positions := before + (if required[n] then [n] else []);
      forall j | 0 <= j < |names| && required[j] ensures j in positions {
        if j < n {
          assert j in before;
        } else {
          assert positions[|before|] == n;
        }
      }
    }
  }

  lemma RequiredIff(names: seq<string>, required: seq<bool>, j: nat)
    requires |names| == |required| && j < |names| && NoneTwice(names)
    ensures names[j] in RequiredNames(names, required) <==> required[j]
  {
    var positions := RequiredAreListed(names, required);
    var listed := RequiredNames(names, required);
    if required[j] {
      var k :| 0 <= k < |positions| && positions[k] == j;
      assert listed[k] == names[j];
    }
    if names[j] in listed {
      var k :| 0 <= k < |listed| && listed[k] == names[j];
      assert names[positions[k]] == names[j];
    }
  }

  // ----- The printed keywords -------------------------------------------------------------------

  /** The keyword that is printed for a kind is read as the demand of that kind, and none is printed only where
      the kind demands nothing. */
  lemma KeywordMeansKind(kind: Kind)
    requires kind.TypedDict? ==> |kind.names| == |kind.required| && NoneTwice(kind.names)
    ensures Reading(KeywordOf(kind)) == DemandOf(kind)
    ensures KeywordOf(kind).Nothing? <==> DemandOf(kind).NoDemand?
  {
    if kind.TypedDict? {
      var TypedDict(names, required) := kind;
      forall j | 0 <= j < |names| ensures names[j] in RequiredNames(names, required) <==> required[j] {
        RequiredIff(names, required, j);
      }
    }
  }

  /** A literal is printed exactly when its values are all texts, as texts, or all numbers, as those. */
  lemma LiteralIsPrintedIff(values: seq<Value>)
    ensures LiteralKeyword(values) == Enum("string", values) <==> AllTexts(values)
    ensures LiteralKeyword(values) == Enum("integer", values) <==> AllNumbers(values) && !AllTexts(values)
    ensures LiteralKeyword(values) == Nothing <==> !AllTexts(values) && !AllNumbers(values)
  {
    assert "string"[0] != "integer"[0];
  }

  // ----- Unions ---------------------------------------------------------------------------------

  /** The schema demands a type and says no more. */
  ghost predicate IsBare(schema: Schema, type_: string) {
    && schema.id.None? && schema.keyword == Type(type_)
    && Reading(schema.keyword) in {ANull, ABoolean, AnInteger, ANumber, AText}
  }

  ghost predicate AllBare(schemas: seq<Schema>, types: seq<string>) {
    |types| == |schemas| && forall j | 0 <= j < |schemas| :: IsBare(schemas[j], types[j])
  }

  lemma CompressibleIff(schema: Schema)
    ensures Compressible(schema) <==> exists type_ :: IsBare(schema, type_)
  {
    if Compressible(schema) {
      assert IsBare(schema, schema.keyword.type_);
    }
  }

  lemma {:induction false} CompressedIff(schemas: seq<Schema>, types: seq<string>)
    ensures |Compressed(schemas)| <= |schemas|
    ensures AllBare(schemas, types) <==> |Compressed(schemas)| == |schemas| && types == Compressed(schemas)
  {
    if schemas != [] {
      var n := |schemas| - 1;
      CompressibleIff(schemas[n]);
      CompressedIff(schemas[..n], Compressed(schemas[..n]));
      if |types| == |schemas| {
        CompressedIff(schemas[..n], types[..n]);
        assert types == types[..n] + [types[n]];
        assert AllBare(schemas, types) <==> AllBare(schemas[..n], types[..n]) && IsBare(schemas[n], types[n]);
      }
    }
  }

  /** A union lists types exactly when there are alternatives and each is no more than a type: those types, in order.
      Otherwise it has the schemas of the alternatives, in order. */
  lemma UnionListsTypesIff(schemas: seq<Schema>, types: seq<string>)
    ensures schemas != [] && AllBare(schemas, types) <==> UnionSchema(schemas) == Schema(None, TypeOf(types), [])
    ensures (forall some :: !AllBare(schemas, some)) || schemas == [] ==>
              UnionSchema(schemas) == Schema(None, OneOf, schemas)
  {
    CompressedIff(schemas, types);
    CompressedIff(schemas, Compressed(schemas));
  }
}
