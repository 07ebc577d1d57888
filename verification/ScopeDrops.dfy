/**
When the state of an observer is dropped, whether or not scopes were entered under completed parents.
*/
module ScopeDrops {
  import opened Wrappers
  import opened ScopeTree
  import opened ScopeRuns

  /** What every run keeps, even one that leaves flags inexact. */
  ghost predicate Sane(t: Tracker) {
    match t.root
    case None => t.tree == map[] && t.exited == {} && t.completed == {}
    case Some(root) =>
      && Shape(t.tree, root)
      && root !in t.completed
      && t.completed <= t.exited <= t.tree.Keys
  }

  /** The scopes that are not completed are exactly the given one and those above it. */
  ghost predicate OnlyAboveOpen(t: Tracker, id: Id)
    requires t.root.Some? && Shape(t.tree, t.root.value) && id in t.tree
  {
    forall x <- t.tree :: x in t.completed <==> !Under(t.tree, t.root.value, x, id)
  }

  // ----- The recursive flag and the walk --------------------------------------------------------

  /** The recursive `completed` property says that the whole subtree is marked. */
  lemma {:induction false} CompletedIsSubtree(tree: map<Id, Node>, root: Id, completed: set<Id>, a: Id)
    requires Shape(tree, root) && a in tree
    ensures Completed(tree, completed, a) <==> SubtreeExited(tree, root, completed, a)
    decreases |tree| - tree[a].entered
  {
    SubtreeByChildren(tree, root, completed, a);
    forall c | c in tree[a].nested ensures Completed(tree, completed, c) <==> SubtreeExited(tree, root, completed, c) {
      CompletedIsSubtree(tree, root, completed, c);
    }
  }

  /** The walk completes left scopes above its start that were not completed; if it gets to the root it has
      completed all of them. */
  lemma {:induction false} ClimbIsAbove(tree: map<Id, Node>, root: Id, exited: set<Id>, completed: set<Id>, p: Id)
    requires Shape(tree, root) && p in tree
    ensures var climbed := Elements(Climb(tree, root, exited, completed, p));
            && climbed <= exited && climbed !! completed
            && (forall x <- climbed :: x in tree && Under(tree, root, x, p))
            && (root in climbed ==> forall x <- tree | Under(tree, root, x, p) :: x in climbed)
    decreases tree[p].entered
  {
    if CanComplete(tree, exited, completed, p) && p != root {
      assert HasParent(tree, p);
      ClimbIsAbove(tree, root, exited, completed + {p}, tree[p].parent);
    }
  }

  /** When everything else is completed and all scopes are left, the walk completes the rest. */
  lemma {:induction false} ClimbCompletesAll(tree: map<Id, Node>, root: Id, exited: set<Id>, completed: set<Id>, p: Id)
    requires Shape(tree, root) && p in tree && tree.Keys <= exited && completed <= tree.Keys
    requires forall x <- tree :: x in completed <==> !Under(tree, root, x, p)
    ensures completed + Elements(Climb(tree, root, exited, completed, p)) == tree.Keys
    decreases tree[p].entered
  {
    forall c | c in tree[p].nested ensures Completed(tree, completed, c) {
      forall d | d in tree && Under(tree, root, c, d) ensures d in completed {
        if Under(tree, root, d, p) {
          UnderTransitive(tree, root, c, d, p);
          UnderIsEarlier(tree, root, c, p);
        }
      }
      CompletedIsSubtree(tree, root, completed, c);
    }
    assert Under(tree, root, p, p);
    if p == root {
      assert forall x <- tree :: x != root ==> !Under(tree, root, x, root);
    } else {
      assert HasParent(tree, p);
      var q := tree[p].parent;
      if Under(tree, root, p, q) {
        UnderIsEarlier(tree, root, p, q);
      }
      forall x | x in tree ensures x in completed + {p} <==> !Under(tree, root, x, q) {
        assert x != p ==> (Under(tree, root, x, p) <==> Under(tree, root, x, q));
      }
      ClimbCompletesAll(tree, root, exited, completed + {p}, q);
    }
  }

  // ----- Dropping -------------------------------------------------------------------------------

  /** Leaving a scope drops the state if and only if no other scope is open and exactly the scopes that are
      not above it are completed, both of which can be seen before the call. */
  lemma DropsIff(t: Tracker, id: Id)
    requires Sane(t) && CanExit(t, id)
    ensures Exit(t, id).root.None? <==> t.tree.Keys <= t.exited + {id} && OnlyAboveOpen(t, id)
    ensures Sane(Exit(t, id))
  {
    var tree, root, exited := t.tree, t.root.value, t.exited + {id};
    var climbed := Climb(tree, root, exited, t.completed, id);
    var done := t.completed + Elements(climbed);
    ClimbIsAbove(tree, root, exited, t.completed, id);
    CompletedIsSubtree(tree, root, done, root);
    forall x | x in tree ensures Under(tree, root, root, x) {
      UnderRoot(tree, root, x);
    }
    if climbed != [] && Completed(tree, done, root) {
      assert forall x <- tree :: x in done;
      assert root in Elements(climbed);
    }
    if tree.Keys <= exited && OnlyAboveOpen(t, id) {
      ClimbCompletesAll(tree, root, exited, t.completed, id);
      assert root in Elements(climbed);
    }
    RootIsLast(tree, root, exited, t.completed, id);
  }

  /** The walk gets to the root only to find the whole tree completed. */
  lemma {:induction false} RootIsLast(tree: map<Id, Node>, root: Id, exited: set<Id>, completed: set<Id>, p: Id)
    requires Shape(tree, root) && p in tree && root !in completed
    ensures var climbed := Elements(Climb(tree, root, exited, completed, p));
            root in climbed ==> Completed(tree, completed + climbed, root)
    decreases tree[p].entered
  {
    var climbed := Climb(tree, root, exited, completed, p);
    if CanComplete(tree, exited, completed, p) {
      if p == root {
        forall c | c in tree[p].nested ensures Completed(tree, completed + {p}, c) {
          CompletedIsSubtree(tree, root, completed, c);
          CompletedIsSubtree(tree, root, completed + {p}, c);
        }
        assert Elements(climbed) == {p};
      } else {
        assert HasParent(tree, p);
        RootIsLast(tree, root, exited, completed + {p}, tree[p].parent);
        var rest := Climb(tree, root, exited, completed + {p}, tree[p].parent);
        assert climbed == [p] + rest;
        assert completed + Elements(climbed) == completed + {p} + Elements(rest);
      }
    }
  }

  lemma EnterKeepsSane(t: Tracker, id: Id, parent: Id)
    requires Sane(t) && CanEnter(t, id, parent)
    ensures Sane(Enter(t, id, parent))
  {
    if t.root.Some? {
      EnterKeepsShape(t, id, parent);
      EnterEffect(t, id, parent);
    }
  }

  lemma {:induction false} RunsKeepSane(t: Tracker, actions: seq<Action>)
    requires Sane(t) && IsRun(t, actions)
    ensures Sane(Last(t, actions))
    decreases |actions|
  {
    if actions != [] {
      match actions[0] {
        case EnterScope(id, parent) => EnterKeepsSane(t, id, parent);
        case ExitScope(id) => DropsIff(t, id);
      }
      RunsKeepSane(Next(t, actions[0]), actions[1..]);
    }
  }

  /** After any run of a fresh observer, with entries under completed parents or without, the exit of a scope
      drops the state if and only if it is the last open scope and exactly the scopes that are not above it
      are completed. */
  lemma RunsDropIff(actions: seq<Action>, id: Id)
    requires IsRun(EMPTY, actions) && CanExit(Last(EMPTY, actions), id)
    ensures var t := Last(EMPTY, actions);
            && (Exit(t, id).root.None? <==> t.tree.Keys <= t.exited + {id} && OnlyAboveOpen(t, id))
            && IsRun(EMPTY, actions + [ExitScope(id)])
            && Last(EMPTY, actions + [ExitScope(id)]) == Exit(t, id)
  {
    RunsKeepSane(EMPTY, actions);
    DropsIff(Last(EMPTY, actions), id);
    OneMore(EMPTY, actions, ExitScope(id));
  }

  lemma {:induction false} OneMore(t: Tracker, actions: seq<Action>, a: Action)
    requires IsRun(t, actions) && Enabled(Last(t, actions), a)
    ensures IsRun(t, actions + [a]) && Last(t, actions + [a]) == Next(Last(t, actions), a)
    decreases |actions|
  {
    var all := actions + [a];
    if actions == [] {
      assert all[1..] == [];
    } else {
      assert all[1..] == actions[1..] + [a];
      OneMore(Next(t, actions[0]), actions[1..], a);
    }
  }

  // ----- An entry under a completed parent that does no harm ------------------------------------

  lemma SecondExit()
    ensures var t := Tracker(Some(0), TWO_NESTED, {1}, {1}, [1]);
            && CanExit(t, 2)
            && Exit(t, 2) == Tracker(Some(0), TWO_NESTED, {1, 2}, {1, 2}, [1, 2])
  {
    TwoNestedShape();
    var exited := {1} + {2};
    assert Climb(TWO_NESTED, 0, exited, {1} + {2}, 1) == [];
    assert CanComplete(TWO_NESTED, exited, {1}, 2);
    assert Climb(TWO_NESTED, 0, exited, {1}, 2) == [2];
    assert Elements([2]) == {2};
    assert {1} + {2} == {1, 2} && [1] + [2] == [1, 2];
    assert !Completed(TWO_NESTED, {1, 2}, 0);
  }

  lemma LastExitDrops()
    ensures var t := Tracker(Some(0), TWO_NESTED, {1, 2}, {1, 2}, [1, 2]);
            CanExit(t, 0) && Exit(t, 0).root.None?
  {
    TwoNestedShape();
    var t := Tracker(Some(0), TWO_NESTED, {1, 2}, {1, 2}, [1, 2]);
    assert OnlyAboveOpen(t, 0);
    DropsIff(t, 0);
  }

  /** Scope 2 enters under the completed scope 1, and the state is dropped all the same, since the root is
      left last and looks at all scopes below it again. */
  lemma LateRootExitDrops()
    ensures var actions :=
              [EnterScope(0, 0), EnterScope(1, 0), ExitScope(1), EnterScope(2, 1), ExitScope(2), ExitScope(0)];
            IsRun(EMPTY, actions) && !ParentsOpen(EMPTY, actions) && Last(EMPTY, actions).root.None?
  {
    LeakStart();
    LeakFirstExit();
    LeakMiddle();
    SecondExit();
    LastExitDrops();
    var t1 := Enter(EMPTY, 0, 0);
    var t2 := Tracker(Some(0), ONE_NESTED, {}, {}, []);
    var t3 := Tracker(Some(0), ONE_NESTED, {1}, {1}, [1]);
    var t4 := Tracker(Some(0), TWO_NESTED, {1}, {1}, [1]);
    var t5 := Tracker(Some(0), TWO_NESTED, {1, 2}, {1, 2}, [1, 2]);
    RunStep(t5, ExitScope(0), []);
    RunStep(t4, ExitScope(2), [ExitScope(0)]);
    RunStep(t3, EnterScope(2, 1), [ExitScope(2), ExitScope(0)]);
    RunStep(t2, ExitScope(1), [EnterScope(2, 1), ExitScope(2), ExitScope(0)]);
    RunStep(t1, EnterScope(1, 0), [ExitScope(1), EnterScope(2, 1), ExitScope(2), ExitScope(0)]);
    RunStep(EMPTY, EnterScope(0, 0), [EnterScope(1, 0), ExitScope(1), EnterScope(2, 1), ExitScope(2), ExitScope(0)]);
    assert !ParentsOpen(t3, [EnterScope(2, 1), ExitScope(2), ExitScope(0)]);
    NotAllOpen(t2, ExitScope(1), [EnterScope(2, 1), ExitScope(2), ExitScope(0)]);
    NotAllOpen(t1, EnterScope(1, 0), [ExitScope(1), EnterScope(2, 1), ExitScope(2), ExitScope(0)]);
    NotAllOpen(EMPTY, EnterScope(0, 0), [EnterScope(1, 0), ExitScope(1), EnterScope(2, 1), ExitScope(2), ExitScope(0)]);
  }

  lemma NotAllOpen(t: Tracker, a: Action, rest: seq<Action>)
    requires Enabled(t, a) && IsRun(Next(t, a), rest) && !ParentsOpen(Next(t, a), rest)
    ensures IsRun(t, [a] + rest) && !ParentsOpen(t, [a] + rest)
  {
    RunStep(t, a, rest);
    assert ([a] + rest)[1..] == rest;
  }
}
