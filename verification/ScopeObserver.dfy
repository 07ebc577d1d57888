/**
The objects behind the completion tree: scope stores that are updated in place, reached through the
dictionary of registered scopes.  Each method is proved against the step functions of `ScopeTree`.
*/
module ScopeObserver {
  import opened Wrappers
  import opened ScopeTree

  class ScopeStore {
    const id: Id
    const parent: Id
    var nested: seq<ScopeStore>
    var exited: bool
    var completed: bool

    constructor (id: Id, parent: Id)
      ensures this.id == id && this.parent == parent
      ensures nested == [] && !exited && !completed
    {
      this.id, this.parent := id, parent;
      nested, exited, completed := [], false, false;
    }
  }

  /** The store registered for `id` holds what the abstract state says about it. */
  ghost predicate Holds(scopes: map<Id, ScopeStore>, state: Tracker, id: Id)
    requires id in scopes && id in state.tree
    reads scopes.Values
  {
    var store := scopes[id];
    && store.id == id
    && store.parent == state.tree[id].parent
    && (store.exited <==> id in state.exited)
    && (store.completed <==> id in state.completed)
    && |store.nested| == |state.tree[id].nested|
    && forall i | 0 <= i < |store.nested| ::
         state.tree[id].nested[i] in scopes && scopes[state.tree[id].nested[i]] == store.nested[i]
  }

  /** A registered store that its parent does not list yet. */
  ghost predicate Unlisted(scopes: map<Id, ScopeStore>, state: Tracker, store: ScopeStore)
    reads scopes.Values
  {
    && scopes.Keys == state.tree.Keys && state.exited <= scopes.Keys && state.completed <= scopes.Keys
    && store.parent in scopes && store.id in scopes && scopes[store.id] == store && store.id != store.parent
    && (forall x <- scopes :: x != store.parent ==> Holds(scopes, state, x) && scopes[x] != scopes[store.parent])
    && var above: ScopeStore, node := scopes[store.parent], state.tree[store.parent];
    && above.id == store.parent && above.parent == node.parent
    && (above.exited <==> store.parent in state.exited)
    && (above.completed <==> store.parent in state.completed)
    && |above.nested| + 1 == |node.nested| && node.nested[|above.nested|] == store.id
    && (forall i | 0 <= i < |above.nested| :: node.nested[i] in scopes && scopes[node.nested[i]] == above.nested[i])
  }

  lemma EnteredIsUnlisted(scopes: map<Id, ScopeStore>, state: Tracker, store: ScopeStore)
    requires scopes.Keys == state.tree.Keys && state.exited <= scopes.Keys && state.completed <= scopes.Keys
    requires state.root.Some? && Shape(state.tree, state.root.value) && CanEnter(state, store.id, store.parent)
    requires forall x <- scopes :: Holds(scopes, state, x)
    requires store.nested == [] && !store.exited && !store.completed && store !in scopes.Values
    ensures Unlisted(scopes[store.id := store], Enter(state, store.id, store.parent), store)
    ensures Enter(state, store.id, store.parent).root == state.root
    ensures Shape(Enter(state, store.id, store.parent).tree, state.root.value)
  {
    EnterEffect(state, store.id, store.parent);
    EnterKeepsShape(state, store.id, store.parent);
    var more, entered := scopes[store.id := store], Enter(state, store.id, store.parent);
    forall x <- scopes | x != store.parent ensures Holds(more, entered, x) && more[x] != more[store.parent] {
      assert Holds(scopes, state, x) && Holds(scopes, state, store.parent);
      assert more[x] == scopes[x] && entered.tree[x] == state.tree[x];
    }
    assert Holds(more, entered, store.id);
    assert Holds(scopes, state, store.parent);
  }

  class Observer {
    var root: Option<Id>
    var scopes: map<Id, ScopeStore>
    /** The abstract state that the dictionary and the stores represent. */
    ghost var state: Tracker

    ghost predicate Represents(id: Id)
      requires id in scopes && id in state.tree
      reads this, scopes.Values
    {
      Holds(scopes, state, id)
    }

    ghost predicate Valid()
      reads this, scopes.Values
    {
      && root == state.root
      && scopes.Keys == state.tree.Keys
      && state.exited <= scopes.Keys && state.completed <= scopes.Keys
      && (forall id <- scopes :: Represents(id))
      && (if root.Some? then Shape(state.tree, root.value)
          else state.tree == map[] && state.exited == {} && state.completed == {})
    }

    constructor ()
      ensures Valid() && state == EMPTY
    {
      root, scopes, state := None, map[], EMPTY;
    }

    /** The `completed` property. */
    method IsCompleted(id: Id) returns (b: bool)
      requires Valid() && root.Some? && id in scopes
      ensures b == Completed(state.tree, state.completed, id)
      decreases |state.tree| - state.tree[id].entered
    {
      assert Represents(id);
      if !scopes[id].completed {
        return false;
      }
      b := AllNestedCompleted(id);
    }

    method AllNestedCompleted(id: Id) returns (b: bool)
      requires Valid() && root.Some? && id in scopes
      ensures b == forall c <- state.tree[id].nested :: Completed(state.tree, state.completed, c)
      decreases |state.tree| - state.tree[id].entered, 0
    {
      ghost var ids := state.tree[id].nested;
      assert Represents(id);
      for i := 0 to |scopes[id].nested|
        invariant forall k | 0 <= k < i :: ids[k] in state.tree && Completed(state.tree, state.completed, ids[k])
      {
        assert ids[i] in ids && Represents(ids[i]);
        var done := IsCompleted(scopes[id].nested[i].id);
        if !done {
          return false;
        }
      }
      return true;
    }

    /** `ScopeStore.try_complete`. */
    method TryComplete(id: Id) returns (b: bool)
      requires Valid() && root.Some? && id in scopes
      modifies scopes.Values, this`state
      ensures Valid()
      ensures b == CanComplete(old(state.tree), old(state.exited), old(state.completed), id)
      ensures state == if b then old(state).(completed := old(state.completed) + {id}, ended := old(state.ended) + [id])
                       else old(state)
    {
      assert Represents(id);
      if !scopes[id].exited || scopes[id].completed {
        return false;
      }
      b := AllNestedCompleted(id);
      if b {
        MarkCompleted(id);
      }
    }

    method MarkCompleted(id: Id)
      requires Valid() && id in scopes
      modifies scopes[id], this`state
      ensures Valid()
      ensures state == old(state).(completed := old(state.completed) + {id}, ended := old(state.ended) + [id])
    {
      scopes[id].completed := true;
      state := state.(completed := state.completed + {id}, ended := state.ended + [id]);
      forall x | x in scopes ensures Represents(x) {
        assert old(Represents(x));
        assert x != id ==> old(Represents(id)) && scopes[x] != scopes[id];
      }
    }

    /** `scope_entering`. */
    method ScopeEntering(id: Id, parent: Id)
      requires Valid() && CanEnter(state, id, parent)
      modifies this, scopes.Values
      ensures Valid() && state == Enter(old(state), id, parent)
    {
      var store := new ScopeStore(id, parent);
      if root.None? {
        scopes := map[id := store];
        root := Some(id);
        state := Enter(state, id, parent);
      } else {
        RegisterNested(store);
      }
    }

    method AppendToParent(store: ScopeStore)
      requires root == state.root && root.Some? && Shape(state.tree, root.value) && Unlisted(scopes, state, store)
      modifies (scopes[store.parent] as ScopeStore)`nested
      ensures Valid()
    {
      var above := scopes[store.parent];
      above.nested := above.nested + [store];
      assert forall x <- scopes :: x != store.parent ==> old(Represents(x)) && scopes[x] != above;
      assert Represents(store.parent);
    }

    /** Registers a new store and appends it to the nested scopes of its parent. */
    method RegisterNested(store: ScopeStore)
      requires Valid() && root.Some? && CanEnter(state, store.id, store.parent)
      requires store.nested == [] && !store.exited && !store.completed && store !in scopes.Values
      modifies this, scopes.Values
      ensures Valid() && state == Enter(old(state), store.id, store.parent)
    {
      assert forall x <- scopes :: Represents(x);
      EnteredIsUnlisted(scopes, state, store);
      Register(store);
      AppendToParent(store);
    }

    method Register(store: ScopeStore)
      requires state.root.Some? && CanEnter(state, store.id, store.parent)
      requires Unlisted(scopes[store.id := store], Enter(state, store.id, store.parent), store)
      modifies this`scopes, this`state
      ensures scopes == old(scopes)[store.id := store] && state == Enter(old(state), store.id, store.parent)
      ensures Unlisted(scopes, state, store)
    {
      scopes := scopes[store.id := store];
      state := Enter(state, store.id, store.parent);
    }

    /** The first `try_complete` of `scope_exiting` and the loop over the parents after it. */
    method CompleteUpwards(id: Id) returns (any: bool)
      requires Valid() && root.Some? && id in scopes
      modifies scopes.Values, this`state
      ensures Valid() && state == Upwards(old(state), id)
      ensures any <==> CanComplete(old(state.tree), old(state.exited), old(state.completed), id)
    {
      var p := id;
      any := TryComplete(p);
      var going := any;
      while going && p != root.value
        invariant Valid() && p in scopes && state.tree == old(state.tree)
        invariant Upwards(old(state), id) == if going then Above(state, p) else state
        decreases going, state.tree[p].entered
      {
        assert Represents(p) && HasParent(state.tree, p);
        p := scopes[p].parent;
        going := TryComplete(p);
      }
    }

    /** `scope_exiting`. */
    method ScopeExiting(id: Id)
      requires Valid() && CanExit(state, id)
      modifies this, scopes.Values
      ensures Valid() && state == Exit(old(state), id)
    {
      MarkExited(id);
      UpwardsIsClimb(state, id);
      var any := CompleteUpwards(id);
      if any {
        DropIfCompleted();
      }
    }

    /** The check for completion of the root at the end of `scope_exiting`. */
    method DropIfCompleted()
      requires Valid() && root.Some?
      modifies this
      ensures Valid()
      ensures state == if Completed(old(state.tree), old(state.completed), old(root.value))
                       then Tracker(None, map[], {}, {}, old(state.ended)) else old(state)
    {
      var finished := IsCompleted(root.value);
      if finished {
        root := None;
        scopes := map[];
        state := Tracker(None, map[], {}, {}, state.ended);
      }
    }

    /** `ScopeStore.exit`. */
    method MarkExited(id: Id)
      requires Valid() && CanExit(state, id)
      modifies scopes.Values, this`state
      ensures Valid() && state == old(state).(exited := old(state.exited) + {id})
    {
      scopes[id].exited := true;
      state := state.(exited := state.exited + {id});
      forall x | x in scopes ensures Represents(x) {
        assert old(Represents(x));
        assert x != id ==> old(Represents(id)) && scopes[x] != scopes[id];
      }
    }
  }

  /** The walk as a loop over states, from the scope `p` on. */
  ghost function Upwards(t: Tracker, p: Id): Tracker
    requires t.root.Some? && Shape(t.tree, t.root.value) && p in t.tree
    decreases t.tree[p].entered, 1
  {
    if CanComplete(t.tree, t.exited, t.completed, p)
    then Above(t.(completed := t.completed + {p}, ended := t.ended + [p]), p)
    else t
  }

  /** What is left of the walk once `p` has been completed. */
  ghost function Above(t: Tracker, p: Id): Tracker
    requires t.root.Some? && Shape(t.tree, t.root.value) && p in t.tree
    decreases t.tree[p].entered, 0
  {
    if p == t.root.value then t
    else assert HasParent(t.tree, p); Upwards(t, t.tree[p].parent)
  }

  /** The loop completes the scopes that `Climb` lists. */
  lemma {:induction false} UpwardsIsClimb(t: Tracker, p: Id)
    requires t.root.Some? && Shape(t.tree, t.root.value) && p in t.tree
    ensures var climbed := Climb(t.tree, t.root.value, t.exited, t.completed, p);
            && Upwards(t, p) == t.(completed := t.completed + Elements(climbed), ended := t.ended + climbed)
            && (climbed != [] <==> CanComplete(t.tree, t.exited, t.completed, p))
    decreases t.tree[p].entered
  {
    var climbed := Climb(t.tree, t.root.value, t.exited, t.completed, p);
    if climbed == [] {
      assert t.completed + Elements(climbed) == t.completed && t.ended + climbed == t.ended;
    } else {
      var t1 := t.(completed := t.completed + {p}, ended := t.ended + [p]);
      var rest := climbed[1..];
      assert climbed == [p] + rest;
      assert t.completed + Elements(climbed) == t1.completed + Elements(rest);
      assert t.ended + climbed == t1.ended + rest;
      if p == t.root.value {
        assert rest == [] && t1.completed + Elements(rest) == t1.completed;
      } else {
        assert HasParent(t.tree, p);
        UpwardsIsClimb(t1, t.tree[p].parent);
      }
    }
  }
}
