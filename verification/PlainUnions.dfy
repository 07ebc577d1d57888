/**
Which unions leave their results alone, so that exporting and validating goes back and forth.
*/
module PlainUnions {
  import opened Wrappers
  import opened Values
  import opened Annotations
  import opened Stability
  import opened Unions
  import opened States
  import opened RoundTrip

  /** `T | None`, possibly with `Missing`. */
  lemma NullableLeavesResults(env: Environment, a: Annotation, main: nat)
    requires PlainEnvironment(env) && a.UnionA? && Nullable(a.alternatives, main)
    requires forall i | 0 <= i < |a.alternatives| :: Plain(env, a.alternatives[i])
    ensures LeavesResults(env, a)
  {
    forall d: nat, w: Value, k: nat | k < |a.alternatives| && Chosen(env, d, a, w, k)
      ensures LeftAlone(env, a, k, ByAlternative(env, d, a, w)[k].value)
    {
      var v := ByAlternative(env, d, a, w)[k].value;
      assert Validate(env, d, a.alternatives[k], w) == Ok(v);
      forall depth: nat, i: nat, exported: bool | i < |a.alternatives| && i != k
        ensures var attempt := Attempt(env, depth, a, i, v, exported);
                (i < k ==> attempt.Err? || attempt == Ok(v)) && (attempt == Ok(v) ==> Good(env, v, exported))
      {
        NullAttempt(env, d, depth, a, main, k, i, w, v, exported);
      }
    }
  }

  lemma NullAttempt(env: Environment, d: nat, depth: nat, a: Annotation, main: nat, k: nat, i: nat, w: Value, v: Value,
                    exported: bool)
    requires PlainEnvironment(env) && a.UnionA? && Nullable(a.alternatives, main)
    requires forall j | 0 <= j < |a.alternatives| :: Plain(env, a.alternatives[j])
    requires k < |a.alternatives| && i < |a.alternatives| && i != k && Validate(env, d, a.alternatives[k], w) == Ok(v)
    ensures var attempt := Attempt(env, depth, a, i, v, exported);
            (attempt.Err? || attempt == Ok(v)) && (attempt == Ok(v) ==> Good(env, v, exported))
  {
    ExportKeepsKind(env, v);
    assert k != main ==> NullKind(a.alternatives[k]);
    assert i != main ==> NullKind(a.alternatives[i]);
    if Validate(env, depth, a.alternatives[i], Form(env, v, exported)).Ok? {
      NullsAreKept(env, depth, a.alternatives[i], Form(env, v, exported));
      assert v.Null? || v.Missing?;
    }
  }

  /** Scalar kinds, under the condition under which such a union is idempotent. */
  lemma ScalarUnionLeavesResults(env: Environment, a: Annotation)
    requires ScalarUnion(a)
    requires forall i, k | 0 <= i < k < |a.alternatives| :: !BoolShadowsInt(a.alternatives, i, k)
    ensures LeavesResults(env, a)
  {
    forall d: nat, w: Value, k: nat | k < |a.alternatives| && Chosen(env, d, a, w, k)
      ensures LeftAlone(env, a, k, ByAlternative(env, d, a, w)[k].value)
    {
      var attempts := ByAlternative(env, d, a, w);
      var v := attempts[k].value;
      assert attempts[k] == Validate(env, d, a.alternatives[k], w);
      ScalarResult(env, d, a.alternatives[k], w);
      forall depth: nat, i: nat, exported: bool | i < |a.alternatives| && i != k
        ensures var attempt := Attempt(env, depth, a, i, v, exported);
                (i < k ==> attempt.Err? || attempt == Ok(v)) && (attempt == Ok(v) ==> Good(env, v, exported))
      {
        ExportKeepsKind(env, v);
        assert Form(env, v, exported) == v && Good(env, v, exported);
        if i < k {
          ScalarAttempt(env, d, depth, a, k, i, w);
        }
      }
    }
  }

  lemma ScalarResult(env: Environment, depth: nat, a: Annotation, v: Value)
    requires ScalarKind(a) && Validate(env, depth, a, v).Ok?
    ensures Scalar(Validate(env, depth, a, v).value)
  {
  }

  lemma ScalarAttempt(env: Environment, d: nat, depth: nat, a: Annotation, k: nat, i: nat, w: Value)
    requires ScalarUnion(a) && i < k < |a.alternatives| && Chosen(env, d, a, w, k)
    requires forall j, l | 0 <= j < l < |a.alternatives| :: !BoolShadowsInt(a.alternatives, j, l)
    ensures var v := ByAlternative(env, d, a, w)[k].value;
            var attempt := ByAlternative(env, depth, a, v)[i];
            attempt.Err? || attempt == Ok(v)
  {
    var attempts := ByAlternative(env, d, a, w);
    var v := attempts[k].value;
    assert attempts[k] == Validate(env, d, a.alternatives[k], w);
    assert attempts[i].Err? && attempts[i] == Validate(env, d, a.alternatives[i], w);
    DepthIsIrrelevant(env, d, depth, a.alternatives[i], v);
    if Validate(env, d, a.alternatives[i], v).Ok? && Validate(env, d, a.alternatives[i], v) != Ok(v) {
      ScalarChange(env, d, a.alternatives[k], a.alternatives[i], w);
      forall j | 0 <= j < k ensures !a.alternatives[j].IntA? && !a.alternatives[j].FloatA? {
        assert attempts[j] == Validate(env, d, a.alternatives[j], w);
      }
      assert BoolShadowsInt(a.alternatives, i, k);
    }
  }

  lemma DepthIsIrrelevant(env: Environment, d: nat, depth: nat, a: Annotation, v: Value)
    requires ScalarKind(a)
    ensures Validate(env, d, a, v) == Validate(env, depth, a, v)
  {
  }

  /** The shapes a value of the given shape may have when it is exported. */
  function Exported(shape: Shape): set<Shape> {
    match shape
    case TupleS => {ListS}
    case SetS => {ListS}
    case StateS => {DictS, StateS}
    case _ => {shape}
  }

  /** No alternative takes what a later one gives, exported or not, and none gives what an earlier one gives. */
  predicate Apart(alternatives: seq<Annotation>) {
    forall i, k | 0 <= i < k < |alternatives| ::
      && Gives(alternatives[i]) !! Gives(alternatives[k])
      && forall shape <- Gives(alternatives[k]) ::
           shape !in Takes(alternatives[i]) && Exported(shape) !! Takes(alternatives[i])
  }

  lemma ExportedShape(env: Environment, v: Value)
    ensures ShapeOf(Export(env, v)) in Exported(ShapeOf(v))
  {
  }

  /** Unions of alternatives that are told apart by the shapes they take and give. */
  lemma ApartLeavesResults(env: Environment, a: Annotation)
    requires a.UnionA? && Apart(a.alternatives)
    ensures LeavesResults(env, a)
  {
    forall d: nat, w: Value, k: nat | k < |a.alternatives| && Chosen(env, d, a, w, k)
      ensures LeftAlone(env, a, k, ByAlternative(env, d, a, w)[k].value)
    {
      var v := ByAlternative(env, d, a, w)[k].value;
      assert Validate(env, d, a.alternatives[k], w) == Ok(v);
      ShapesFit(env, d, a.alternatives[k], w);
      ExportedShape(env, v);
      forall depth: nat, i: nat, exported: bool | i < |a.alternatives| && i != k
        ensures var attempt := Attempt(env, depth, a, i, v, exported);
                (i < k ==> attempt.Err? || attempt == Ok(v)) && (attempt == Ok(v) ==> Good(env, v, exported))
      {
        if Validate(env, depth, a.alternatives[i], Form(env, v, exported)).Ok? {
          ShapesFit(env, depth, a.alternatives[i], Form(env, v, exported));
        }
      }
    }
  }
}
