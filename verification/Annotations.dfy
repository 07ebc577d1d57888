/**
Attribute annotations: validation, which coerces a value to the annotated type, and checking, which only
answers whether a value has it.
*/
module Annotations {
  import opened Wrappers
  import opened Values

  datatype Error = WrongType | WrongValue | MissingKey | Rejected | Unresolved | TooDeep

  /** The annotation nodes.  `VerifiedA` adds a verifier to a node, which returns its argument or raises;
      a union runs its own verifier inside the attempt at each alternative.  `ValidatedA` runs a user
      function first.  `AliasA` and `StateA` refer to the environment by name and so may be recursive. */
  datatype Annotation =
    | AnyA
    | NullA
    | MissingA
    | BoolA
    | IntA
    | FloatA
    | StrA
    | BytesA
    | SpecialA(kind: string)
    | LiteralA(values: seq<Value>)
    | TupleA(elements: seq<Annotation>)
    | SequenceA(element: Annotation)
    | SetA(element: Annotation)
    | MappingA(key: Annotation, element: Annotation)
    | TypedDictA(members: seq<Member>)
    | UnionA(alternatives: seq<Annotation>, verifier: Value -> bool)
    | StateA(cls: string)
    | AliasA(name: string)
    | VerifiedA(base: Annotation, verifier: Value -> bool)
    | ValidatedA(base: Annotation, validator: Value -> Result<Value, Error>)

  datatype Member = Member(name: string, annotation: Annotation, required: bool)

  /** A field of a State class; `default` is what its default resolver gives, possibly `Missing`. */
  datatype Field = Field(name: string, alias: Option<string>, annotation: Annotation, default: Value)

  /** The targets of type aliases, the fields of State classes, and the parsers of text formats. */
  datatype Environment = Environment(
    aliases: map<string, Annotation>,
    classes: map<string, seq<Field>>,
    parse: (string, string) -> Option<string>)

  type Validated = Result<Value, Error>

  // ----- Combining the results for the parts of a value -----------------------------------------

  /** All results, or the first error. */
  function Collect<T>(results: seq<Result<T, Error>>): Result<seq<T>, Error> {
    if results == [] then Ok([])
    else
      var n := |results| - 1;
      match Collect(results[..n])
      case Err(error) => Err(error)
      case Ok(before) =>
        match results[n]
        case Err(error) => Err(error)
        case Ok(value) => Ok(before + [value])
  }

  /** The first result that is not an error. */
  function FirstOk(results: seq<Validated>): Validated {
    if results == [] then Err(WrongValue)
    else if results[0].Ok? then results[0]
    else FirstOk(results[1..])
  }

  function Verify(result: Validated, verifier: Value -> bool): Validated {
    if result.Ok? && !verifier(result.value) then Err(Rejected) else result
  }

  function LowerCase(text: string): string {
    seq(|text|, i requires 0 <= i < |text| =>
      if 'A' <= text[i] <= 'Z' then (text[i] as int + 32) as char else text[i])
  }

  /** The elements of a sequence that is not text or bytes. */
  function SequenceItems(v: Value): Option<seq<Value>> {
    match v
    case Tuple(items) => Some(items)
    case List(items) => Some(items)
    case _ => None
  }

  /** The elements of any iterable that is not text or bytes. */
  function IterableItems(v: Value): Option<seq<Value>> {
    match v
    case Tuple(items) => Some(items)
    case List(items) => Some(items)
    case Set(items) => Some(items)
    case Dict(entries) => Some(Keys(entries))
    case _ => None
  }

  function ToTuple(items: Result<seq<Value>, Error>): Validated {
    match items
    case Err(error) => Err(error)
    case Ok(values) => Ok(Tuple(values))
  }

  function ToSet(items: Result<seq<Value>, Error>): Validated {
    match items
    case Err(error) => Err(error)
    case Ok(values) =>
      if forall i | 0 <= i < |values| :: Hashable(values[i]) then Ok(Set(Dedup(values))) else Err(WrongType)
  }

  function ToDict(pairs: Result<seq<(Value, Value)>, Error>): Validated {
    match pairs
    case Err(error) => Err(error)
    case Ok(entries) =>
      if forall i | 0 <= i < |entries| :: Hashable(entries[i].0) then Ok(Dict(DictOf(entries))) else Err(WrongType)
  }

  function Pair(key: Validated, value: Validated): Result<(Value, Value), Error> {
    match key
    case Err(error) => Err(error)
    case Ok(k) =>
      match value
      case Err(error) => Err(error)
      case Ok(v) => Ok((k, v))
  }

  /** The pairs that were produced; members that are absent and not required produce none. */
  function Present(pairs: seq<Option<(Value, Value)>>): seq<(Value, Value)> {
    if pairs == [] then []
    else
      var n := |pairs| - 1;
      Present(pairs[..n]) + (if pairs[n].Some? then [pairs[n].value] else [])
  }

  // ----- validate -------------------------------------------------------------------------------

  /** `validate`.  `depth` is how deep named types may still be nested; running out of it is the error of
      exceeding the recursion limit, which a union treats like any other. */
  function Validate(env: Environment, depth: nat, a: Annotation, v: Value): Validated
    decreases depth, a, 1
  {
    match a
    case AnyA => Ok(v)
    case NullA => if v.Null? then Ok(v) else Err(WrongType)
    case MissingA => if v.Missing? then Ok(v) else Err(WrongType)
    case BoolA => ValidateBool(v)
    case IntA => ValidateInt(v)
    case FloatA => ValidateFloat(v)
    case StrA => if v.Str? then Ok(v) else Err(WrongType)
    case BytesA => if v.Bytes? then Ok(v) else Err(WrongType)
    case SpecialA(kind) => ValidateSpecial(env, kind, v)
    case LiteralA(values) => if Holds(values, v) then Ok(v) else Err(WrongValue)
    case TupleA(elements) =>
      if SequenceItems(v).None? then Err(WrongType)
      else if |SequenceItems(v).value| != |elements| then Err(WrongValue)
      else ToTuple(Collect(ByPosition(env, depth, a, SequenceItems(v).value)))
    case SequenceA(_) =>
      if SequenceItems(v).None? then Err(WrongType)
      else ToTuple(Collect(ByElement(env, depth, a, SequenceItems(v).value)))
    case SetA(_) =>
      if IterableItems(v).None? then Err(WrongType)
      else ToSet(Collect(ByElement(env, depth, a, IterableItems(v).value)))
    case MappingA(_, _) =>
      if !v.Dict? then Err(WrongType) else ToDict(Collect(ByPair(env, depth, a, v.entries)))
    case TypedDictA(_) =>
      if !v.Dict? then Err(WrongType)
      else
        (match Collect(ByMember(env, depth, a, v.entries))
         case Err(error) => Err(error)
         case Ok(pairs) => ToDict(Ok(Present(pairs))))
    case UnionA(_, _) => FirstOk(ByAlternative(env, depth, a, v))
    case StateA(cls) =>
      if v.State? && v.cls == cls then Ok(v)
      else if !v.Dict? then Err(WrongType)
      else if depth == 0 then Err(TooDeep)
      else if cls !in env.classes then Err(Unresolved)
      else if !Accepts(env.classes[cls], v.entries) then Err(WrongType)
      else Construct(env, depth - 1, cls, v.entries)
    case AliasA(name) =>
      if depth == 0 then Err(TooDeep)
      else if name !in env.aliases then Err(Unresolved)
      else Validate(env, depth - 1, env.aliases[name], v)
    case VerifiedA(base, verifier) => Verify(Validate(env, depth, base, v), verifier)
    case ValidatedA(base, validator) =>
      match validator(v)
      case Err(error) => Err(error)
      case Ok(w) => Validate(env, depth, base, w)
  }

  function ByElement(env: Environment, depth: nat, a: Annotation, items: seq<Value>): seq<Validated>
    requires a.SequenceA? || a.SetA?
    decreases depth, a, 0
  {
    seq(|items|, i requires 0 <= i < |items| => Validate(env, depth, a.element, items[i]))
  }

  function ByPosition(env: Environment, depth: nat, a: Annotation, items: seq<Value>): seq<Validated>
    requires a.TupleA? && |items| == |a.elements|
    decreases depth, a, 0
  {
    seq(|items|, i requires 0 <= i < |items| => Validate(env, depth, a.elements[i], items[i]))
  }

  function ByPair(env: Environment, depth: nat, a: Annotation, entries: seq<(Value, Value)>)
    : seq<Result<(Value, Value), Error>>
    requires a.MappingA?
    decreases depth, a, 0
  {
    seq(|entries|, i requires 0 <= i < |entries| =>
      Pair(Validate(env, depth, a.key, entries[i].0), Validate(env, depth, a.element, entries[i].1)))
  }

  function ByMember(env: Environment, depth: nat, a: Annotation, entries: seq<(Value, Value)>)
    : seq<Result<Option<(Value, Value)>, Error>>
    requires a.TypedDictA?
    decreases depth, a, 0
  {
    seq(|a.members|, i requires 0 <= i < |a.members| =>
      var member := a.members[i];
      match Lookup(entries, Str(member.name))
      case None => if member.required then Err(MissingKey) else Ok(None)
      case Some(value) => Under(Str(member.name), Validate(env, depth, member.annotation, value)))
  }

  function Under(key: Value, result: Validated): Result<Option<(Value, Value)>, Error> {
    match result
    case Err(error) => Err(error)
    case Ok(value) => Ok(Some((key, value)))
  }

  function ByAlternative(env: Environment, depth: nat, a: Annotation, v: Value): seq<Validated>
    requires a.UnionA?
    decreases depth, a, 0
  {
    seq(|a.alternatives|, i requires 0 <= i < |a.alternatives| =>
      Verify(Validate(env, depth, a.alternatives[i], v), a.verifier))
  }

  function ByField(env: Environment, depth: nat, fields: seq<Field>, entries: seq<(Value, Value)>): seq<Validated>
    decreases depth, fields, 0
  {
    seq(|fields|, i requires 0 <= i < |fields| =>
      Validate(env, depth, fields[i].annotation, Source(fields[i], entries)))
  }

  /** `State.__init__`: every field is validated from the arguments or its default. */
  function Construct(env: Environment, depth: nat, cls: string, entries: seq<(Value, Value)>): Validated
    requires cls in env.classes
    decreases depth
  {
    match Collect(ByField(env, depth, env.classes[cls], entries))
    case Err(error) => Err(error)
    case Ok(values) => Ok(State(cls, values))
  }

  function ValidateBool(v: Value): Validated {
    match v
    case Bool(_) => Ok(v)
    case Int(number) => Ok(Bool(number != 0))
    case Str(text) =>
      if LowerCase(text) == "true" then Ok(Bool(true))
      else if LowerCase(text) == "false" then Ok(Bool(false))
      else Err(WrongValue)
    case _ => Err(WrongType)
  }

  function ValidateInt(v: Value): Validated {
    match v
    case Int(_) => Ok(v)
    case Float(r) => if r.Floor as real == r then Ok(Int(r.Floor)) else Err(WrongType)
    case _ => Err(WrongType)
  }

  function ValidateFloat(v: Value): Validated {
    match v
    case Float(_) => Ok(v)
    case Int(number) => Ok(Float(number as real))
    case _ => Err(WrongType)
  }

  function ValidateSpecial(env: Environment, kind: string, v: Value): Validated {
    match v
    case Special(k, _) => if k == kind then Ok(v) else Err(WrongType)
    case Str(text) =>
      (match env.parse(kind, text)
       case None => Err(WrongValue)
       case Some(format) => Ok(Special(kind, format)))
    case _ => Err(WrongType)
  }

  /** The checks of `State.validate` on the keys of a mapping: only names and aliases, never both for one
      field. */
  predicate Accepts(fields: seq<Field>, entries: seq<(Value, Value)>) {
    && (forall e | 0 <= e < |entries| :: exists f :: 0 <= f < |fields| && NamesField(fields[f], entries[e].0))
    && (forall f | 0 <= f < |fields| && fields[f].alias.Some? ::
          !(Lookup(entries, Str(fields[f].alias.value)).Some? && Lookup(entries, Str(fields[f].name)).Some?))
  }

  predicate NamesField(field: Field, key: Value) {
    key == Str(field.name) || (field.alias.Some? && key == Str(field.alias.value))
  }

  /** `Attribute.validate_from`: the value under the alias, else under the name, else the default. */
  function Source(field: Field, entries: seq<(Value, Value)>): Value {
    var named := match Lookup(entries, Str(field.name)) case Some(value) => value case None => field.default;
    match field.alias
    case None => named
    case Some(alias) => match Lookup(entries, Str(alias)) case Some(value) => value case None => named
  }

  // ----- check ----------------------------------------------------------------------------------

  /** The answer of `check`, or the error of exceeding the recursion limit. */
  datatype Answer = Yes | No | Raises

  /** `all`: stops at the first answer that is not yes. */
  function All(answers: seq<Answer>): Answer {
    if answers == [] then Yes else if answers[0].Yes? then All(answers[1..]) else answers[0]
  }

  /** `any`: stops at the first answer that is not no. */
  function Any(answers: seq<Answer>): Answer {
    if answers == [] then No else if answers[0].No? then Any(answers[1..]) else answers[0]
  }

  function Answers(b: bool): Answer {
    if b then Yes else No
  }

  /** Everything that counts as a sequence, text and bytes included. */
  function AnyItems(v: Value): Option<seq<Value>> {
    match v
    case Str(text) => Some(seq(|text|, i requires 0 <= i < |text| => Str([text[i]])))
    case Bytes(bytes) => Some(seq(|bytes|, i requires 0 <= i < |bytes| => Int(bytes[i])))
    case _ => SequenceItems(v)
  }

  /** `check`. */
  function Check(env: Environment, depth: nat, a: Annotation, v: Value): Answer
    decreases depth, a, 1
  {
    match a
    case AnyA => Yes
    case NullA => Answers(v.Null?)
    case MissingA => Answers(v.Missing?)
    case BoolA => Answers(v.Bool?)
    case IntA => Answers(v.Int? || v.Bool?)
    case FloatA => Answers(v.Float?)
    case StrA => Answers(v.Str?)
    case BytesA => Answers(v.Bytes?)
    case SpecialA(kind) => Answers(v.Special? && v.kind == kind)
    case LiteralA(values) => Answers(Holds(values, v))
    case TupleA(elements) =>
      if AnyItems(v).None? || |AnyItems(v).value| != |elements| then No
      else All(CheckByPosition(env, depth, a, AnyItems(v).value))
    case SequenceA(_) =>
      if SequenceItems(v).None? then No else All(CheckByElement(env, depth, a, SequenceItems(v).value))
    case SetA(_) => if !v.Set? then No else All(CheckByElement(env, depth, a, v.items))
    case MappingA(_, _) => if !v.Dict? then No else All(CheckByPair(env, depth, a, v.entries))
    case TypedDictA(_) => if !v.Dict? then No else All(CheckByMember(env, depth, a, v.entries))
    case UnionA(_, _) => Any(CheckByAlternative(env, depth, a, v))
    case StateA(cls) => Answers(v.State? && v.cls == cls)
    case AliasA(name) =>
      if depth == 0 || name !in env.aliases then Raises
      else Check(env, depth - 1, env.aliases[name], v)
    case VerifiedA(base, _) => Check(env, depth, base, v)
    case ValidatedA(base, _) => Check(env, depth, base, v)
  }

  function CheckByElement(env: Environment, depth: nat, a: Annotation, items: seq<Value>): seq<Answer>
    requires a.SequenceA? || a.SetA?
    decreases depth, a, 0
  {
    seq(|items|, i requires 0 <= i < |items| => Check(env, depth, a.element, items[i]))
  }

  function CheckByPosition(env: Environment, depth: nat, a: Annotation, items: seq<Value>): seq<Answer>
    requires a.TupleA? && |items| == |a.elements|
    decreases depth, a, 0
  {
    seq(|items|, i requires 0 <= i < |items| => Check(env, depth, a.elements[i], items[i]))
  }

  function CheckByPair(env: Environment, depth: nat, a: Annotation, entries: seq<(Value, Value)>): seq<Answer>
    requires a.MappingA?
    decreases depth, a, 0
  {
    seq(|entries|, i requires 0 <= i < |entries| =>
      All([Check(env, depth, a.key, entries[i].0), Check(env, depth, a.element, entries[i].1)]))
  }

  function CheckByMember(env: Environment, depth: nat, a: Annotation, entries: seq<(Value, Value)>): seq<Answer>
    requires a.TypedDictA?
    decreases depth, a, 0
  {
    seq(|a.members|, i requires 0 <= i < |a.members| =>
      var member := a.members[i];
      match Lookup(entries, Str(member.name))
      case None => Answers(!member.required)
      case Some(value) => Any([Check(env, depth, member.annotation, value), Answers(!member.required)]))
  }

  function CheckByAlternative(env: Environment, depth: nat, a: Annotation, v: Value): seq<Answer>
    requires a.UnionA?
    decreases depth, a, 0
  {
    seq(|a.alternatives|, i requires 0 <= i < |a.alternatives| => Check(env, depth, a.alternatives[i], v))
  }

  // ----- Lemmas about the combinators -----------------------------------------------------------

  lemma {:induction false} CollectIsAll<T>(results: seq<Result<T, Error>>)
    ensures Collect(results).Ok? <==> forall i | 0 <= i < |results| :: results[i].Ok?
    ensures Collect(results).Ok? ==>
              && |Collect(results).value| == |results|
              && forall i | 0 <= i < |results| :: results[i] == Ok(Collect(results).value[i])
  {
    if results != [] {
      var n := |results| - 1;
      CollectIsAll(results[..n]);
      assert forall i | 0 <= i < n :: results[..n][i] == results[i];
    }
  }

  lemma CollectOks<T>(results: seq<Result<T, Error>>, values: seq<T>)
    requires |results| == |values| && forall i | 0 <= i < |values| :: results[i] == Ok(values[i])
    ensures Collect(results) == Ok(values)
  {
    CollectIsAll(results);
    assert Collect(results).value == values;
  }

  lemma CollectIff<T>(results: seq<Result<T, Error>>, values: seq<T>)
    requires |results| == |values|
    ensures Collect(results) == Ok(values) <==> forall i | 0 <= i < |values| :: results[i] == Ok(values[i])
  {
    CollectIsAll(results);
    if forall i | 0 <= i < |values| :: results[i] == Ok(values[i]) {
      CollectOks(results, values);
    }
  }

  lemma {:induction false} FirstOkIsFirst(results: seq<Validated>)
    ensures FirstOk(results).Ok? <==> exists i :: 0 <= i < |results| && results[i].Ok?
    ensures FirstOk(results).Ok? ==>
              exists i :: 0 <= i < |results| && results[i] == FirstOk(results)
                          && forall j | 0 <= j < i :: results[j].Err?
  {
    if results != [] && results[0].Err? {
      var rest := results[1..];
      FirstOkIsFirst(rest);
      assert forall i | 0 <= i < |rest| :: rest[i] == results[i + 1];
      if FirstOk(rest).Ok? {
        var i :| 0 <= i < |rest| && rest[i] == FirstOk(rest) && forall j | 0 <= j < i :: rest[j].Err?;
        assert results[i + 1] == FirstOk(results);
        forall j | 0 <= j < i + 1 ensures results[j].Err? {
          assert j > 0 ==> results[j] == rest[j - 1];
        }
      }
    }
  }

  lemma {:induction false} AllMeansNoNo(answers: seq<Answer>)
    requires forall i | 0 <= i < |answers| :: !answers[i].No?
    ensures !All(answers).No?
  {
    if answers != [] {
      AllMeansNoNo(answers[1..]);
    }
  }

  lemma {:induction false} AnyMeansNotAllNo(answers: seq<Answer>, i: nat)
    requires i < |answers| && !answers[i].No?
    ensures !Any(answers).No?
  {
    if i > 0 {
      AnyMeansNotAllNo(answers[1..], i - 1);
    }
  }

  // ----- Typed dictionaries ---------------------------------------------------------------------

  ghost predicate DistinctNames(names: seq<string>) {
    forall i, j | 0 <= i < j < |names| :: names[i] != names[j]
  }

  /** The pairs produced for the members: under the member's own name, or none. */
  ghost predicate PairsOf(names: seq<string>, pairs: seq<Option<(Value, Value)>>) {
    && |names| == |pairs|
    && DistinctNames(names)
    && (forall i | 0 <= i < |pairs| && pairs[i].Some? :: pairs[i].value.0 == Str(names[i]))
  }

  lemma {:induction false} PresentIsSome(pairs: seq<Option<(Value, Value)>>)
    ensures forall x :: x in Present(pairs) <==> exists i :: 0 <= i < |pairs| && pairs[i] == Some(x)
  {
    if pairs != [] {
      var n := |pairs| - 1;
      PresentIsSome(pairs[..n]);
      forall x ensures x in Present(pairs) <==> exists i :: 0 <= i < |pairs| && pairs[i] == Some(x) {
        if x in Present(pairs[..n]) {
          var i :| 0 <= i < n && pairs[..n][i] == Some(x);
          assert pairs[i] == Some(x);
        }
        if exists i :: 0 <= i < |pairs| && pairs[i] == Some(x) {
          var i :| 0 <= i < |pairs| && pairs[i] == Some(x);
          assert i < n ==> pairs[..n][i] == Some(x);
        }
      }
    }
  }

  lemma {:induction false} PresentIsDistinct(names: seq<string>, pairs: seq<Option<(Value, Value)>>)
    requires PairsOf(names, pairs)
    ensures DistinctItems(Keys(Present(pairs)))
  {
    if pairs != [] {
      var n := |pairs| - 1;
      var before, all := Present(pairs[..n]), Present(pairs);
      PresentIsDistinct(names[..n], pairs[..n]);
      PresentIsSome(pairs[..n]);
      forall i, j | 0 <= i < j < |all| ensures Unequal(Keys(all), i, j) {
        if j < |before| {
          assert Unequal(Keys(before), i, j);
        } else {
          assert before[i] in before;
          var k :| 0 <= k < n && pairs[..n][k] == Some(before[i]);
          assert pairs[k].value.0 == Str(names[k]) && names[k] != names[n];
        }
      }
    }
  }

  /** In the resulting dictionary a member's name leads to the member's value, or to nothing. */
  lemma MembersFound(names: seq<string>, pairs: seq<Option<(Value, Value)>>, i: nat)
    requires PairsOf(names, pairs) && i < |names|
    ensures Lookup(Present(pairs), Str(names[i])) == if pairs[i].Some? then Some(pairs[i].value.1) else None
  {
    var all := Present(pairs);
    PresentIsSome(pairs);
    if pairs[i].Some? {
      PresentIsDistinct(names, pairs);
      assert pairs[i].value in all;
      var k :| 0 <= k < |all| && all[k] == pairs[i].value;
      LookupOfDistinct(all, k, Str(names[i]));
    } else {
      AbsentIsNotFound(names, pairs, i);
    }
  }

  lemma AbsentIsNotFound(names: seq<string>, pairs: seq<Option<(Value, Value)>>, i: nat)
    requires PairsOf(names, pairs) && i < |names| && pairs[i].None?
    ensures Lookup(Present(pairs), Str(names[i])) == None
  {
    var all := Present(pairs);
    PresentIsSome(pairs);
    forall k | 0 <= k < |all| ensures !Same(all[k].0, Str(names[i])) {
      assert all[k] in all;
      var j :| 0 <= j < |pairs| && pairs[j] == Some(all[k]);
      assert all[k].0 == Str(names[j]);
    }
  }

  ghost function Names(members: seq<Member>): seq<string> {
    seq(|members|, i requires 0 <= i < |members| => members[i].name)
  }

  /** A successful validation produces, for every member, its own pair or none. */
  lemma PairsAreMembers(env: Environment, depth: nat, a: Annotation, entries: seq<(Value, Value)>)
    requires a.TypedDictA? && DistinctNames(Names(a.members))
    requires Collect(ByMember(env, depth, a, entries)).Ok?
    ensures PairsOf(Names(a.members), Collect(ByMember(env, depth, a, entries)).value)
  {
    var parts := ByMember(env, depth, a, entries);
    CollectIsAll(parts);
    var pairs := Collect(parts).value;
    forall i | 0 <= i < |pairs| && pairs[i].Some? ensures pairs[i].value.0 == Str(Names(a.members)[i]) {
      assert parts[i] == Ok(pairs[i]);
    }
  }
}
