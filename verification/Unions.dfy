/**
Which unions are coherent, read off their alternatives.
*/
module Unions {
  import opened Wrappers
  import opened Values
  import opened Annotations
  import opened Stability

  // ----- Scalar alternatives --------------------------------------------------------------------

  predicate ScalarKind(a: Annotation) {
    a.NullA? || a.MissingA? || a.BoolA? || a.IntA? || a.FloatA? || a.StrA? || a.BytesA? || a.SpecialA?
  }

  ghost predicate ScalarUnion(a: Annotation) {
    && a.UnionA?
    && (forall i | 0 <= i < |a.alternatives| :: ScalarKind(a.alternatives[i]))
    && (forall v: Value :: a.verifier(v))
  }

  /** An integer alternative that no other numeric one precedes, but a boolean one does. */
  predicate BoolShadowsInt(alternatives: seq<Annotation>, i: nat, k: nat)
    requires i < k < |alternatives|
  {
    && alternatives[i].BoolA? && alternatives[k].IntA?
    && forall j | 0 <= j < k :: !alternatives[j].IntA? && !alternatives[j].FloatA?
  }

  /** Only a float that an integer alternative took, and a boolean one takes again, is changed twice. */
  lemma ScalarUndone(env: Environment, depth: nat, a: Annotation, v: Value, k: nat, i: nat)
    requires ScalarUnion(a) && i < k < |a.alternatives| && Chosen(env, depth, a, v, k)
    ensures Undone(env, depth, a, v, k, i) ==> BoolShadowsInt(a.alternatives, i, k)
  {
    var attempts := ByAlternative(env, depth, a, v);
    if Undone(env, depth, a, v, k, i) {
      assert attempts[k] == Validate(env, depth, a.alternatives[k], v);
      assert attempts[i].Err? && attempts[i] == Validate(env, depth, a.alternatives[i], v);
      var r := attempts[k].value;
      assert Validate(env, depth, a.alternatives[i], r) != Ok(r);
      ScalarChange(env, depth, a.alternatives[k], a.alternatives[i], v);
      forall j | 0 <= j < k ensures !a.alternatives[j].IntA? && !a.alternatives[j].FloatA? {
        assert attempts[j] == Validate(env, depth, a.alternatives[j], v);
      }
    }
  }

  lemma ScalarChange(env: Environment, depth: nat, late: Annotation, early: Annotation, v: Value)
    requires ScalarKind(late) && ScalarKind(early)
    requires Validate(env, depth, late, v).Ok? && Validate(env, depth, early, v).Err?
    requires var r := Validate(env, depth, late, v).value;
             Validate(env, depth, early, r).Ok? && Validate(env, depth, early, r) != Ok(r)
    ensures late.IntA? && early.BoolA? && v.Float? && v.fraction.Floor as real == v.fraction
  {
  }

  /** The float 2.0 goes to the integer alternative, and the integer 2 to the boolean one. */
  lemma ShadowUndoes(env: Environment, a: Annotation, i: nat, k: nat)
    requires ScalarUnion(a) && i < k < |a.alternatives| && BoolShadowsInt(a.alternatives, i, k)
    ensures !Coherent(env, a)
  {
    var attempts := ByAlternative(env, 0, a, Float(2.0));
    assert ValidateInt(Float(2.0)) == Ok(Int(2));
    assert attempts[k] == Ok(Int(2));
    assert Chosen(env, 0, a, Float(2.0), k);
    var first := FirstIntegral(env, a, i);
    assert first <= i;
    assert Undone(env, 0, a, Float(2.0), k, first);
  }

  /** The first alternative that takes the integer 2 is no later than a boolean one, which would take it. */
  lemma FirstIntegral(env: Environment, a: Annotation, i: nat) returns (first: nat)
    requires ScalarUnion(a) && i < |a.alternatives| && a.alternatives[i].BoolA?
    requires forall j | 0 <= j <= i :: !a.alternatives[j].IntA? && !a.alternatives[j].FloatA?
    ensures first <= i && Chosen(env, 0, a, Int(2), first)
    ensures ByAlternative(env, 0, a, Int(2))[first] == Ok(Bool(true))
  {
    var attempts := ByAlternative(env, 0, a, Int(2));
    assert attempts[i] == Ok(Bool(true));
    FirstOkIsFirst(attempts);
    first :| 0 <= first < |attempts| && attempts[first] == FirstOk(attempts)
             && forall j | 0 <= j < first :: attempts[j].Err?;
    assert attempts[first] == Validate(env, 0, a.alternatives[first], Int(2));
  }

  lemma ScalarsAreStable(env: Environment, a: Annotation)
    requires ScalarUnion(a)
    ensures forall i | 0 <= i < |a.alternatives| :: Stable(env, a.alternatives[i])
  {
    forall i | 0 <= i < |a.alternatives| ensures Stable(env, a.alternatives[i]) {
      assert ScalarKind(a.alternatives[i]);
    }
  }

  /** For every union of scalar kinds without a verifier: it is idempotent for all values if and only if no
      boolean alternative stands before an integer one that has no other numeric one before it. */
  lemma ScalarUnionIsIdempotentIff(env: Environment, a: Annotation)
    requires StableAliases(env) && ScalarUnion(a)
    ensures Idempotent(env, a) <==>
            forall i, k | 0 <= i < k < |a.alternatives| :: !BoolShadowsInt(a.alternatives, i, k)
  {
    ScalarsAreStable(env, a);
    UnionIsIdempotentIff(env, a);
    ScalarUnionIsCoherentIff(env, a);
  }

  lemma ScalarUnionIsCoherentIff(env: Environment, a: Annotation)
    requires ScalarUnion(a)
    ensures Coherent(env, a) <==>
            forall i, k | 0 <= i < k < |a.alternatives| :: !BoolShadowsInt(a.alternatives, i, k)
  {
    if forall i, k | 0 <= i < k < |a.alternatives| :: !BoolShadowsInt(a.alternatives, i, k) {
      forall depth: nat, v: Value, k: nat, i: nat | i < k < |a.alternatives| && Chosen(env, depth, a, v, k)
        ensures !Undone(env, depth, a, v, k, i)
      {
        ScalarUndone(env, depth, a, v, k, i);
      }
    } else {
      var i, k :| 0 <= i < k < |a.alternatives| && BoolShadowsInt(a.alternatives, i, k);
      ShadowUndoes(env, a, i, k);
    }
  }

  // ----- Alternatives of different shapes -------------------------------------------------------

  datatype Shape =
    | MissingS | NullS | BoolS | IntS | FloatS | StrS | BytesS | SpecialS | TupleS | ListS | SetS | DictS | StateS

  function ShapeOf(v: Value): Shape {
    match v
    case Missing => MissingS
    case Null => NullS
    case Bool(_) => BoolS
    case Int(_) => IntS
    case Float(_) => FloatS
    case Str(_) => StrS
    case Bytes(_) => BytesS
    case Special(_, _) => SpecialS
    case Tuple(_) => TupleS
    case List(_) => ListS
    case Set(_) => SetS
    case Dict(_) => DictS
    case State(_, _) => StateS
  }

  function AllShapes(): set<Shape> {
    {MissingS, NullS, BoolS, IntS, FloatS, StrS, BytesS, SpecialS, TupleS, ListS, SetS, DictS, StateS}
  }

  /** The shapes of the values that an annotation may accept. */
  function Takes(a: Annotation): set<Shape> {
    match a
    case NullA => {NullS}
    case MissingA => {MissingS}
    case BoolA => {BoolS, IntS, StrS}
    case IntA => {IntS, FloatS}
    case FloatA => {IntS, FloatS}
    case StrA => {StrS}
    case BytesA => {BytesS}
    case SpecialA(_) => {SpecialS, StrS}
    case TupleA(_) => {TupleS, ListS}
    case SequenceA(_) => {TupleS, ListS}
    case SetA(_) => {TupleS, ListS, SetS, DictS}
    case MappingA(_, _) => {DictS}
    case TypedDictA(_) => {DictS}
    case UnionA(alternatives, _) => TakesAny(alternatives)
    case StateA(_) => {DictS, StateS}
    case VerifiedA(base, _) => Takes(base)
    case _ => AllShapes()
  }

  function TakesAny(alternatives: seq<Annotation>): set<Shape> {
    if alternatives == [] then {} else Takes(alternatives[0]) + TakesAny(alternatives[1..])
  }

  /** The shapes of the values that it may return. */
  function Gives(a: Annotation): set<Shape> {
    match a
    case NullA => {NullS}
    case MissingA => {MissingS}
    case BoolA => {BoolS}
    case IntA => {IntS}
    case FloatA => {FloatS}
    case StrA => {StrS}
    case BytesA => {BytesS}
    case SpecialA(_) => {SpecialS}
    case TupleA(_) => {TupleS}
    case SequenceA(_) => {TupleS}
    case SetA(_) => {SetS}
    case MappingA(_, _) => {DictS}
    case TypedDictA(_) => {DictS}
    case UnionA(alternatives, _) => GivesAny(alternatives)
    case StateA(_) => {StateS}
    case VerifiedA(base, _) => Gives(base)
    case ValidatedA(base, _) => Gives(base)
    case _ => AllShapes()
  }

  function GivesAny(alternatives: seq<Annotation>): set<Shape> {
    if alternatives == [] then {} else Gives(alternatives[0]) + GivesAny(alternatives[1..])
  }

  lemma {:induction false} AnyIncludes(alternatives: seq<Annotation>, k: nat)
    requires k < |alternatives|
    ensures Takes(alternatives[k]) <= TakesAny(alternatives) && Gives(alternatives[k]) <= GivesAny(alternatives)
  {
    if k > 0 {
      AnyIncludes(alternatives[1..], k - 1);
    }
  }

  lemma {:induction false} ShapesFit(env: Environment, depth: nat, a: Annotation, v: Value)
    requires Validate(env, depth, a, v).Ok?
    ensures ShapeOf(v) in Takes(a) && ShapeOf(Validate(env, depth, a, v).value) in Gives(a)
    decreases a
  {
    match a
    case UnionA(alternatives, _) =>
      var k := FirstIsChosen(env, depth, a, v);
      ShapesFit(env, depth, alternatives[k], v);
      AnyIncludes(alternatives, k);
    case VerifiedA(base, _) => ShapesFit(env, depth, base, v);
    case ValidatedA(base, validator) => ShapesFit(env, depth, base, validator(v).value);
    case _ =>
  }

  /** No alternative takes what a later one gives. */
  predicate Separate(alternatives: seq<Annotation>) {
    forall i, k | 0 <= i < k < |alternatives| :: Gives(alternatives[k]) !! Takes(alternatives[i])
  }

  /** Unions such as `str | Sequence[int] | SomeState` are coherent, whatever their parts are. */
  lemma SeparateIsCoherent(env: Environment, a: Annotation)
    requires a.UnionA? && Separate(a.alternatives)
    ensures Coherent(env, a)
  {
    forall depth: nat, v: Value, k: nat, i: nat | i < k < |a.alternatives| && Chosen(env, depth, a, v, k)
      ensures !Undone(env, depth, a, v, k, i)
    {
      var r := ByAlternative(env, depth, a, v)[k].value;
      ShapesFit(env, depth, a.alternatives[k], v);
      if Chosen(env, depth, a, r, i) {
        assert Validate(env, depth, a.alternatives[i], r).Ok?;
        ShapesFit(env, depth, a.alternatives[i], r);
      }
    }
  }

  /** At most one alternative is not for nulls. */
  ghost predicate Nullable(alternatives: seq<Annotation>, main: nat) {
    forall i | 0 <= i < |alternatives| && i != main :: NullKind(alternatives[i])
  }

  /** So are unions of the form `T | None`, possibly with `Missing`. */
  lemma NullableIsCoherent(env: Environment, a: Annotation, main: nat)
    requires a.UnionA? && Nullable(a.alternatives, main)
    ensures Coherent(env, a)
  {
    forall depth: nat, v: Value, k: nat, i: nat | i < k < |a.alternatives| && Chosen(env, depth, a, v, k)
      ensures !Undone(env, depth, a, v, k, i)
    {
      var r := ByAlternative(env, depth, a, v)[k].value;
      assert k != main ==> NullKind(a.alternatives[k]);
      assert i != main ==> NullKind(a.alternatives[i]);
      if k != main {
        assert r == v;
      }
    }
  }
}
