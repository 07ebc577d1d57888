/**
Whole runs of scopes that are entered and left, and the one thing that can go wrong in them.
*/
module ScopeRuns {
  import opened Wrappers
  import opened ScopeTree

  datatype Action = EnterScope(id: Id, parent: Id) | ExitScope(id: Id)

  ghost predicate Enabled(t: Tracker, a: Action) {
    match a
    case EnterScope(id, parent) => CanEnter(t, id, parent)
    case ExitScope(id) => CanExit(t, id)
  }

  ghost function Next(t: Tracker, a: Action): Tracker
    requires Enabled(t, a)
  {
    match a
    case EnterScope(id, parent) => Enter(t, id, parent)
    case ExitScope(id) => Exit(t, id)
  }

  /** Any interleaving of calls that meets the assertions of the code. */
  ghost predicate IsRun(t: Tracker, actions: seq<Action>)
    decreases |actions|
  {
    actions == [] || (Enabled(t, actions[0]) && IsRun(Next(t, actions[0]), actions[1..]))
  }

  ghost predicate AlwaysExact(t: Tracker, actions: seq<Action>)
    requires IsRun(t, actions)
    decreases |actions|
  {
    Exact(t) && (actions != [] ==> AlwaysExact(Next(t, actions[0]), actions[1..]))
  }

  ghost predicate ParentsOpen(t: Tracker, actions: seq<Action>)
    requires IsRun(t, actions)
    decreases |actions|
  {
    actions != [] ==>
      && (actions[0].EnterScope? ==> actions[0].parent !in t.completed)
      && ParentsOpen(Next(t, actions[0]), actions[1..])
  }

  ghost function Last(t: Tracker, actions: seq<Action>): Tracker
    requires IsRun(t, actions)
    decreases |actions|
  {
    if actions == [] then t else Last(Next(t, actions[0]), actions[1..])
  }

  /** The tree keeps its shape in every run, whether or not parents are still open, so the shape that
      leaving a scope relies on is never an extra demand on the caller. */
  lemma {:induction false} RunsKeepShape(t: Tracker, actions: seq<Action>)
    requires IsRun(t, actions) && (t.root.Some? ==> Shape(t.tree, t.root.value))
    ensures var u := Last(t, actions); u.root.Some? ==> Shape(u.tree, u.root.value)
    decreases |actions|
  {
    if actions != [] {
      if actions[0].EnterScope? && t.root.Some? {
        EnterKeepsShape(t, actions[0].id, actions[0].parent);
      }
      RunsKeepShape(Next(t, actions[0]), actions[1..]);
    }
  }

  /** All flags are exact in all states of a run if and only if no scope was entered under a parent that
      had already been completed; and then the whole invariant holds at the end. */
  lemma {:induction false} RunIsExactIff(t: Tracker, actions: seq<Action>)
    requires Inv(t) && IsRun(t, actions)
    ensures AlwaysExact(t, actions) <==> ParentsOpen(t, actions)
    ensures ParentsOpen(t, actions) ==> Inv(Last(t, actions))
    decreases |actions|
  {
    if actions != [] {
      match actions[0]
      case EnterScope(id, parent) =>
        EnterKeepsExactIff(t, id, parent);
        if parent !in t.completed {
          RunIsExactIff(Next(t, actions[0]), actions[1..]);
        }
      case ExitScope(id) =>
        ExitKeepsInv(t, id);
        RunIsExactIff(Next(t, actions[0]), actions[1..]);
    }
  }

  /** Every run of a fresh observer. */
  lemma RunsAreExactIff(actions: seq<Action>)
    requires IsRun(EMPTY, actions)
    ensures AlwaysExact(EMPTY, actions) <==> ParentsOpen(EMPTY, actions)
    ensures ParentsOpen(EMPTY, actions) ==> Inv(Last(EMPTY, actions))
  {
    RunIsExactIff(EMPTY, actions);
  }

  // The states of the run below.
  const ONE_NESTED := map[0 := Node(0, 0, [1]), 1 := Node(0, 1, [])]
  const TWO_NESTED := map[0 := Node(0, 0, [1]), 1 := Node(0, 1, [2]), 2 := Node(1, 2, [])]

  lemma LeakStart()
    ensures var t := Enter(EMPTY, 0, 0);
            && CanEnter(t, 1, 0)
            && Enter(t, 1, 0) == Tracker(Some(0), ONE_NESTED, {}, {}, [])
  {
    assert [] + [1] == [1];
  }

  lemma LeakFirstExit()
    ensures var t := Tracker(Some(0), ONE_NESTED, {}, {}, []);
            && CanExit(t, 1)
            && Exit(t, 1) == Tracker(Some(0), ONE_NESTED, {1}, {1}, [1])
  {
    assert HasParent(ONE_NESTED, 1);
    assert Climb(ONE_NESTED, 0, {1}, {} + {1}, 0) == [];
    assert Climb(ONE_NESTED, 0, {1}, {}, 1) == [1];
    assert !Completed(ONE_NESTED, {1}, 0);
    assert Elements([1]) == {1};
  }

  lemma LeakMiddle()
    ensures var t := Tracker(Some(0), ONE_NESTED, {1}, {1}, [1]);
            && CanEnter(t, 2, 1)
            && Enter(t, 2, 1) == Tracker(Some(0), TWO_NESTED, {1}, {1}, [1])
  {
    assert ONE_NESTED[1].nested + [2] == [2];
  }

  lemma TwoNestedShape()
    ensures Shape(TWO_NESTED, 0)
    ensures HasParent(TWO_NESTED, 2) && TWO_NESTED[2].parent == 1
    ensures 2 in TWO_NESTED[1].nested && 1 in TWO_NESTED[0].nested
  {
    assert HasParent(TWO_NESTED, 1) && HasParent(TWO_NESTED, 2);
  }

  lemma LeakRootExit()
    ensures var t := Tracker(Some(0), TWO_NESTED, {1}, {1}, [1]);
            && CanExit(t, 0)
            && Exit(t, 0) == Tracker(Some(0), TWO_NESTED, {0, 1}, {1}, [1])
  {
    TwoNestedShape();
    assert !Completed(TWO_NESTED, {1}, 2);
    assert !Completed(TWO_NESTED, {1}, 1);
    assert Climb(TWO_NESTED, 0, {1} + {0}, {1}, 0) == [];
    assert {1} + {0} == {0, 1};
  }

  lemma LeakLastExit()
    ensures var t := Tracker(Some(0), TWO_NESTED, {0, 1}, {1}, [1]);
            && CanExit(t, 2)
            && Exit(t, 2) == Tracker(Some(0), TWO_NESTED, {0, 1, 2}, {1, 2}, [1, 2])
  {
    TwoNestedShape();
    var exited := {0, 1} + {2};
    assert !CanComplete(TWO_NESTED, exited, {1} + {2}, 1);
    assert Climb(TWO_NESTED, 0, exited, {1} + {2}, 1) == [];
    assert CanComplete(TWO_NESTED, exited, {1}, 2);
    assert Climb(TWO_NESTED, 0, exited, {1}, 2) == [2];
    assert Elements([2]) == {2};
    assert {1} + {2} == {1, 2} && [1] + [2] == [1, 2] && exited == {0, 1, 2};
    assert !Completed(TWO_NESTED, {1, 2}, 0);
  }

  /** Why the condition is needed: scope 2 enters under scope 1 after 1 was completed.  In the end every
      scope has been left, but the walk from 2 stops at 1 and the state is never dropped. */
  lemma EnterUnderCompletedParentLeaks()
    ensures var actions :=
              [EnterScope(0, 0), EnterScope(1, 0), ExitScope(1), EnterScope(2, 1), ExitScope(0), ExitScope(2)];
            && IsRun(EMPTY, actions)
            && Last(EMPTY, actions) == Tracker(Some(0), TWO_NESTED, {0, 1, 2}, {1, 2}, [1, 2])
  {
    LeakStart();
    LeakFirstExit();
    LeakMiddle();
    LeakRootExit();
    LeakLastExit();
    var t1 := Enter(EMPTY, 0, 0);
    var t2 := Tracker(Some(0), ONE_NESTED, {}, {}, []);
    var t3 := Tracker(Some(0), ONE_NESTED, {1}, {1}, [1]);
    var t4 := Tracker(Some(0), TWO_NESTED, {1}, {1}, [1]);
    var t5 := Tracker(Some(0), TWO_NESTED, {0, 1}, {1}, [1]);
    var t6 := Tracker(Some(0), TWO_NESTED, {0, 1, 2}, {1, 2}, [1, 2]);
    RunStep(t5, ExitScope(2), []);
    RunStep(t4, ExitScope(0), [ExitScope(2)]);
    RunStep(t3, EnterScope(2, 1), [ExitScope(0), ExitScope(2)]);
    RunStep(t2, ExitScope(1), [EnterScope(2, 1), ExitScope(0), ExitScope(2)]);
    RunStep(t1, EnterScope(1, 0), [ExitScope(1), EnterScope(2, 1), ExitScope(0), ExitScope(2)]);
    RunStep(EMPTY, EnterScope(0, 0),
            [EnterScope(1, 0), ExitScope(1), EnterScope(2, 1), ExitScope(0), ExitScope(2)]);
    assert Last(t6, []) == t6;
  }

  lemma RunStep(t: Tracker, a: Action, rest: seq<Action>)
    requires Enabled(t, a) && IsRun(Next(t, a), rest)
    ensures IsRun(t, [a] + rest) && Last(t, [a] + rest) == Last(Next(t, a), rest)
  {
    assert ([a] + rest)[1..] == rest;
  }
}