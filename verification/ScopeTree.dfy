/**
The scope completion tree kept by both observability implementations.

A scope is registered when it is entered, is marked exited when it is left, and is marked
completed as soon as it and everything nested in it has been left.  The code never looks at
the tree as a whole: leaving a scope walks up the parents, one flag at a time, and stops at the
first parent that cannot be completed.  The theorems below say that this local walk keeps the
global meaning of the flags exact in every state of every run.
*/
module ScopeTree {
  import opened Wrappers

  type Id = nat

  /** What never changes about a scope, plus the list of scopes entered under it.
      `entered` is the position of the scope in the order of registration. */
  datatype Node = Node(parent: Id, entered: nat, nested: seq<Id>)

  /** The state behind the closures of one observability object.  `ended` lists the scopes in the
      order in which they were completed (the order of `span.end()`) since the root was entered. */
  datatype Tracker = Tracker(
    root: Option<Id>,
    tree: map<Id, Node>,
    exited: set<Id>,
    completed: set<Id>,
    ended: seq<Id>)

  const EMPTY := Tracker(None, map[], {}, {}, [])

  // ----- Shape of the tree ------------------------------------------------------------------

  /** The recursion over nested scopes is well founded: they are registered after their parent. */
  ghost predicate Nesting(tree: map<Id, Node>) {
    && (forall id {:trigger tree[id].entered} :: id in tree ==> tree[id].entered < |tree|)
    && (forall id, c {:trigger c in tree[id].nested} :: id in tree && c in tree[id].nested ==>
          c in tree && tree[id].entered < tree[c].entered)
  }

  ghost predicate Shape(tree: map<Id, Node>, root: Id) {
    && root in tree
    && Nesting(tree)
    && (forall id {:trigger HasParent(tree, id)} :: id in tree && id != root ==> HasParent(tree, id))
    && (forall id, c {:trigger c in tree[id].nested} :: id in tree && c in tree[id].nested ==>
          c != root && tree[c].parent == id)
  }

  /** The parent was registered before the scope and knows it. */
  ghost predicate HasParent(tree: map<Id, Node>, id: Id)
    requires id in tree
  {
    && tree[id].parent in tree
    && tree[tree[id].parent].entered < tree[id].entered
    && id in tree[tree[id].parent].nested
  }

  /** `d` is `a` itself or was entered, directly or not, under `a`. */
  ghost predicate Under(tree: map<Id, Node>, root: Id, a: Id, d: Id)
    requires Shape(tree, root) && d in tree
    decreases tree[d].entered
  {
    d == a || (d != root && (assert HasParent(tree, d); Under(tree, root, a, tree[d].parent)))
  }

  /** The specification of "completed": the scope and its whole subtree have been left. */
  ghost predicate SubtreeExited(tree: map<Id, Node>, root: Id, exited: set<Id>, a: Id)
    requires Shape(tree, root)
  {
    forall d {:trigger Under(tree, root, a, d)} | d in tree :: Under(tree, root, a, d) ==> d in exited
  }

  lemma {:induction false} UnderRoot(tree: map<Id, Node>, root: Id, d: Id)
    requires Shape(tree, root) && d in tree
    ensures Under(tree, root, root, d)
    decreases tree[d].entered
  {
    if d != root {
      assert HasParent(tree, d);
      UnderRoot(tree, root, tree[d].parent);
    }
  }

  lemma {:induction false} UnderTransitive(tree: map<Id, Node>, root: Id, a: Id, b: Id, d: Id)
    requires Shape(tree, root) && b in tree && d in tree
    requires Under(tree, root, a, b) && Under(tree, root, b, d)
    ensures Under(tree, root, a, d)
    decreases tree[d].entered
  {
    if d != b {
      assert HasParent(tree, d);
      UnderTransitive(tree, root, a, b, tree[d].parent);
    }
  }

  lemma {:induction false} UnderIsEarlier(tree: map<Id, Node>, root: Id, a: Id, d: Id)
    requires Shape(tree, root) && d in tree && Under(tree, root, a, d)
    ensures a in tree && tree[a].entered <= tree[d].entered
    ensures a != d ==> tree[a].entered < tree[d].entered
    decreases tree[d].entered
  {
    if d != a {
      assert HasParent(tree, d);
      UnderIsEarlier(tree, root, a, tree[d].parent);
    }
  }

  /** The child of `a` through which `d` hangs. */
  lemma {:induction false} ChildOnPath(tree: map<Id, Node>, root: Id, a: Id, d: Id) returns (c: Id)
    requires Shape(tree, root) && a in tree && d in tree && a != d && Under(tree, root, a, d)
    ensures c in tree[a].nested && c in tree && Under(tree, root, c, d)
    decreases tree[d].entered
  {
    assert HasParent(tree, d);
    if tree[d].parent == a {
      c := d;
    } else {
      c := ChildOnPath(tree, root, a, tree[d].parent);
    }
  }

  /** The subtree of a scope is left exactly when the scope and the subtrees of its children are. */
  lemma SubtreeByChildren(tree: map<Id, Node>, root: Id, exited: set<Id>, a: Id)
    requires Shape(tree, root) && a in tree
    ensures SubtreeExited(tree, root, exited, a) <==>
            a in exited && forall c <- tree[a].nested :: SubtreeExited(tree, root, exited, c)
  {
    if SubtreeExited(tree, root, exited, a) {
      assert Under(tree, root, a, a);
      forall c, d | c in tree[a].nested && d in tree && Under(tree, root, c, d) ensures d in exited {
        UnderTransitive(tree, root, a, c, d);
      }
    }
    if a in exited && forall c <- tree[a].nested :: SubtreeExited(tree, root, exited, c) {
      forall d | d in tree && Under(tree, root, a, d) ensures d in exited {
        if d != a {
          var c := ChildOnPath(tree, root, a, d);
        }
      }
    }
  }

  // ----- The code: entering, trying to complete, walking up -----------------------------------

  /** `ScopeStore.completed`: the own flag and, recursively, every nested scope. */
  predicate Completed(tree: map<Id, Node>, completed: set<Id>, id: Id)
    requires Nesting(tree) && id in tree
    decreases |tree| - tree[id].entered
  {
    id in completed && forall c <- tree[id].nested :: Completed(tree, completed, c)
  }

  /** The condition under which `ScopeStore.try_complete` sets the flag. */
  predicate CanComplete(tree: map<Id, Node>, exited: set<Id>, completed: set<Id>, id: Id)
    requires Nesting(tree) && id in tree
  {
    id in exited && id !in completed && forall c <- tree[id].nested :: Completed(tree, completed, c)
  }

  /** The `while scopes[parent_id].try_complete()` loop, starting at `p`: the scopes it completes, in order. */
  function Climb(tree: map<Id, Node>, root: Id, exited: set<Id>, completed: set<Id>, p: Id): seq<Id>
    requires Shape(tree, root) && p in tree
    decreases tree[p].entered
  {
    if !CanComplete(tree, exited, completed, p) then []
    else if p == root then [p]
    else
      assert HasParent(tree, p);
      [p] + Climb(tree, root, exited, completed + {p}, tree[p].parent)
  }

  function Elements(s: seq<Id>): set<Id> {
    set x | x in s
  }

  /** `scope_entering`. */
  function Enter(t: Tracker, id: Id, parent: Id): Tracker
    requires CanEnter(t, id, parent)
  {
    if t.root.None? then
      Tracker(Some(id), map[id := Node(parent, 0, [])], {}, {}, [])
    else
      var tree := t.tree[id := Node(parent, |t.tree|, [])];
      t.(tree := tree[parent := tree[parent].(nested := tree[parent].nested + [id])])
  }

  /** `scope_exiting`: the scope itself and then its parents, as far as they can be completed. */
  function Exit(t: Tracker, id: Id): Tracker
    requires CanExit(t, id)
  {
    var exited := t.exited + {id};
    var climbed := Climb(t.tree, t.root.value, exited, t.completed, id);
    var completed := t.completed + Elements(climbed);
    var ended := t.ended + climbed;
    if climbed != [] && Completed(t.tree, completed, t.root.value) then Tracker(None, map[], {}, {}, ended)
    else t.(exited := exited, completed := completed, ended := ended)
  }

  /** The code asserts that the identifier is new; its look-up of the parent fails when a root is open
      and the parent is not registered. */
  ghost predicate CanEnter(t: Tracker, id: Id, parent: Id) {
    id !in t.tree && (t.root.Some? ==> parent in t.tree)
  }

  /** The code asserts that a root is open, that the scope is registered and that it was not left before. */
  ghost predicate CanExit(t: Tracker, id: Id) {
    t.root.Some? && Shape(t.tree, t.root.value) && id in t.tree && id !in t.exited
  }

  // ----- The invariant --------------------------------------------------------------------------

  /** Every completion flag says exactly whether the subtree of the scope has been left. */
  ghost predicate Exact(t: Tracker) {
    t.root.Some? ==>
      && Shape(t.tree, t.root.value)
      && forall id {:trigger SubtreeExited(t.tree, t.root.value, t.exited, id)} {:trigger id in t.completed} |
           id in t.tree ::
           id in t.completed <==> SubtreeExited(t.tree, t.root.value, t.exited, id)
  }

  /** Scopes end once, and only after everything nested in them. */
  ghost predicate EndsChildrenFirst(tree: map<Id, Node>, ended: seq<Id>) {
    && (forall i, j | 0 <= i < j < |ended| :: ended[i] != ended[j])
    && (forall i | 0 <= i < |ended| :: ended[i] in tree)
    && (forall i | 0 <= i < |ended| :: forall c <- tree[ended[i]].nested :: c in ended[..i])
  }

  ghost predicate Inv(t: Tracker) {
    && Exact(t)
    && match t.root
       case None => t.tree == map[] && t.exited == {} && t.completed == {}
       case Some(root) =>
         && t.exited <= t.tree.Keys
         && root !in t.completed
         && Elements(t.ended) == t.completed
         && EndsChildrenFirst(t.tree, t.ended)
  }

  /** Under an exact state the recursive `completed` property is just the flag. */
  lemma {:induction false} CompletedIsFlag(tree: map<Id, Node>, completed: set<Id>, id: Id)
    requires Nesting(tree) && id in tree && DownClosed(tree, completed)
    ensures Completed(tree, completed, id) <==> id in completed
    decreases |tree| - tree[id].entered
  {
    if id in completed {
      forall c | c in tree[id].nested ensures Completed(tree, completed, c) {
        CompletedIsFlag(tree, completed, c);
      }
    }
  }

  ghost predicate DownClosed(tree: map<Id, Node>, completed: set<Id>) {
    forall id <- tree, c <- tree[id].nested :: id in completed ==> c in completed
  }

  /** The state in the middle of a walk that is about to look at `p`: all flags are right except that
      `p` and the scopes above it are not marked yet. */
  ghost predicate Climbing(tree: map<Id, Node>, root: Id, exited: set<Id>, completed: set<Id>, p: Id)
    requires Shape(tree, root) && p in tree
  {
    && DownClosed(tree, completed)
    && forall id {:trigger SubtreeExited(tree, root, exited, id)} {:trigger id in completed} | id in tree ::
         if Under(tree, root, id, p) then id !in completed
         else id in completed <==> SubtreeExited(tree, root, exited, id)
  }

  lemma CanCompleteIsExited(tree: map<Id, Node>, root: Id, exited: set<Id>, completed: set<Id>, p: Id)
    requires Shape(tree, root) && p in tree
    requires Climbing(tree, root, exited, completed, p)
    ensures CanComplete(tree, exited, completed, p) <==> SubtreeExited(tree, root, exited, p)
  {
    SubtreeByChildren(tree, root, exited, p);
    forall c | c in tree[p].nested
      ensures Completed(tree, completed, c) <==> SubtreeExited(tree, root, exited, c)
    {
      CompletedIsFlag(tree, completed, c);
      if Under(tree, root, c, p) {
        UnderIsEarlier(tree, root, c, p);
        assert false;
      }
    }
  }

  /** One successful step of the walk leaves the walk at the parent. */
  lemma ClimbOne(tree: map<Id, Node>, root: Id, exited: set<Id>, completed: set<Id>, p: Id)
    requires Shape(tree, root) && p in tree && p != root
    requires Climbing(tree, root, exited, completed, p)
    requires CanComplete(tree, exited, completed, p)
    ensures HasParent(tree, p) && Climbing(tree, root, exited, completed + {p}, tree[p].parent)
  {
    CanCompleteIsExited(tree, root, exited, completed, p);
    assert HasParent(tree, p);
    var q := tree[p].parent;
    assert !Under(tree, root, p, q) by {
      if Under(tree, root, p, q) {
        UnderIsEarlier(tree, root, p, q);
      }
    }
    forall c | c in tree[p].nested ensures c in completed {
      CompletedIsFlag(tree, completed, c);
    }
    forall id | id in tree && id != p && !Under(tree, root, id, q)
      ensures id in completed <==> SubtreeExited(tree, root, exited, id)
    {
      assert !Under(tree, root, id, p);
    }
  }

  /** Where the walk stops every flag is exact, and the scopes it completed end children first. */
  lemma {:induction false} ClimbIsExact(tree: map<Id, Node>, root: Id, exited: set<Id>, completed: set<Id>, p: Id)
    requires Shape(tree, root) && p in tree
    requires Climbing(tree, root, exited, completed, p)
    ensures var done := completed + Elements(Climb(tree, root, exited, completed, p));
            && DownClosed(tree, done)
            && forall id <- tree :: id in done <==> SubtreeExited(tree, root, exited, id)
    decreases tree[p].entered
  {
    CanCompleteIsExited(tree, root, exited, completed, p);
    var climbed := Climb(tree, root, exited, completed, p);
    if !CanComplete(tree, exited, completed, p) {
      forall id | id in tree && Under(tree, root, id, p)
        ensures !SubtreeExited(tree, root, exited, id)
      {
        var d :| d in tree && Under(tree, root, p, d) && d !in exited;
        UnderTransitive(tree, root, id, p, d);
      }
    } else if p == root {
      forall c | c in tree[p].nested ensures c in completed {
        CompletedIsFlag(tree, completed, c);
      }
      forall id | id in tree && id != root ensures !Under(tree, root, id, root) {}
    } else {
      assert HasParent(tree, p);
      ClimbOne(tree, root, exited, completed, p);
      ClimbIsExact(tree, root, exited, completed + {p}, tree[p].parent);
      var rest := Climb(tree, root, exited, completed + {p}, tree[p].parent);
      assert climbed == [p] + rest;
      assert completed + Elements(climbed) == completed + {p} + Elements(rest);
    }
  }

  lemma {:induction false} ClimbEndsInOrder(
      tree: map<Id, Node>, root: Id, exited: set<Id>, completed: set<Id>, p: Id, ended: seq<Id>)
    requires Shape(tree, root) && p in tree
    requires DownClosed(tree, completed) && Elements(ended) == completed
    requires EndsChildrenFirst(tree, ended)
    ensures EndsChildrenFirst(tree, ended + Climb(tree, root, exited, completed, p))
    decreases tree[p].entered
  {
    var climbed := Climb(tree, root, exited, completed, p);
    if !CanComplete(tree, exited, completed, p) {
      assert ended + climbed == ended;
    } else {
      EndOne(tree, exited, completed, p, ended);
      if p == root {
        assert ended + climbed == ended + [p];
      } else {
        assert HasParent(tree, p);
        ClimbEndsInOrder(tree, root, exited, completed + {p}, tree[p].parent, ended + [p]);
        var rest := Climb(tree, root, exited, completed + {p}, tree[p].parent);
        assert ended + climbed == (ended + [p]) + rest;
      }
    }
  }

  lemma EndOne(tree: map<Id, Node>, exited: set<Id>, completed: set<Id>, p: Id, ended: seq<Id>)
    requires Nesting(tree) && p in tree && DownClosed(tree, completed)
    requires Elements(ended) == completed && EndsChildrenFirst(tree, ended)
    requires CanComplete(tree, exited, completed, p)
    ensures EndsChildrenFirst(tree, ended + [p])
    ensures Elements(ended + [p]) == completed + {p}
    ensures DownClosed(tree, completed + {p})
  {
    var e := ended + [p];
    forall c | c in tree[p].nested ensures c in completed {
      CompletedIsFlag(tree, completed, c);
    }
    forall i, c | 0 <= i < |e| && c in tree[e[i]].nested ensures c in e[..i] {
      if i < |ended| {
        assert e[..i] == ended[..i];
      } else {
        assert e[..i] == ended;
        assert c in Elements(ended);
      }
    }
    assert p !in Elements(ended);
    assert Elements(e) == completed + {p} by {
      forall x ensures x in Elements(e) <==> x in completed + {p} {
        if x in Elements(ended) { assert x in e; }
        assert e[|ended|] == p;
      }
    }
  }

  // ----- Single steps ---------------------------------------------------------------------------

  /** Registering a scope changes the subtrees of exactly the scopes above it. */
  lemma {:induction false} UnderAfterEnter(t: Tracker, id: Id, parent: Id, a: Id, d: Id)
    requires t.root.Some? && Shape(t.tree, t.root.value) && CanEnter(t, id, parent)
    requires Shape(Enter(t, id, parent).tree, t.root.value)
    requires d in t.tree
    ensures Under(Enter(t, id, parent).tree, t.root.value, a, d) <==> Under(t.tree, t.root.value, a, d)
    decreases t.tree[d].entered
  {
    if d != a && d != t.root.value {
      assert HasParent(t.tree, d);
      UnderAfterEnter(t, id, parent, a, t.tree[d].parent);
    }
  }

  lemma EnterEffect(t: Tracker, id: Id, parent: Id)
    requires t.root.Some? && CanEnter(t, id, parent)
    ensures var tree := Enter(t, id, parent).tree;
            && Enter(t, id, parent) == t.(tree := tree)
            && tree.Keys == t.tree.Keys + {id}
            && tree[id] == Node(parent, |t.tree|, [])
            && tree[parent] == t.tree[parent].(nested := t.tree[parent].nested + [id])
            && forall x <- t.tree | x != parent :: tree[x] == t.tree[x]
  {
  }

  lemma EnterKeepsShape(t: Tracker, id: Id, parent: Id)
    requires t.root.Some? && Shape(t.tree, t.root.value) && CanEnter(t, id, parent)
    ensures Shape(Enter(t, id, parent).tree, t.root.value)
  {
    var tree := Enter(t, id, parent).tree;
    assert tree.Keys == t.tree.Keys + {id};
    assert |tree.Keys| == |t.tree.Keys| + 1;
    assert |tree| == |t.tree| + 1;
    forall x, c | x in tree && c in tree[x].nested
      ensures c in tree && tree[x].entered < tree[c].entered && c != t.root.value && tree[c].parent == x
    {
      if !(x == parent && c == id) {
        assert x in t.tree && c in t.tree[x].nested;
      }
    }
    forall d | d in tree && d != t.root.value ensures HasParent(tree, d) {
      if d != id {
        assert HasParent(t.tree, d);
      }
    }
  }

  /** Entering keeps every flag exact if and only if the parent is not yet completed.  A caller can
      see this before the call: it is the parent's own flag. */
  lemma EnterKeepsExactIff(t: Tracker, id: Id, parent: Id)
    requires Inv(t) && CanEnter(t, id, parent)
    ensures Exact(Enter(t, id, parent)) <==> parent !in t.completed
    ensures parent !in t.completed ==> Inv(Enter(t, id, parent))
  {
    var u := Enter(t, id, parent);
    if t.root.None? {
      UnderRoot(u.tree, id, id);
      assert Elements(u.ended) == {};
    } else {
      var root := t.root.value;
      EnterKeepsShape(t, id, parent);
      if parent in t.completed {
        assert HasParent(u.tree, id);
        assert Under(u.tree, root, parent, parent) && Under(u.tree, root, parent, id);
        assert id in u.tree && id !in u.exited;
        assert !SubtreeExited(u.tree, root, u.exited, parent);
      } else {
        EnterKeepsFlags(t, id, parent);
        assert forall i | 0 <= i < |t.ended| :: t.ended[i] in Elements(t.ended);
      }
    }
  }

  lemma EnterKeepsFlags(t: Tracker, id: Id, parent: Id)
    requires Inv(t) && CanEnter(t, id, parent) && t.root.Some? && parent !in t.completed
    requires Shape(Enter(t, id, parent).tree, t.root.value)
    ensures Exact(Enter(t, id, parent))
  {
    var u := Enter(t, id, parent);
    var root := t.root.value;
    EnterAbove(t, id, parent);
    forall a | a in u.tree
      ensures a in u.completed <==> SubtreeExited(u.tree, root, u.exited, a)
    {
      if a == id || Under(t.tree, root, a, parent) {
        assert id in u.tree && Under(u.tree, root, a, id) && id !in u.exited;
      } else {
        forall d | d in t.tree ensures Under(u.tree, root, a, d) <==> Under(t.tree, root, a, d) {
          UnderAfterEnter(t, id, parent, a, d);
        }
        assert !Under(u.tree, root, a, id);
      }
    }
  }

  lemma EnterAbove(t: Tracker, id: Id, parent: Id)
    requires Inv(t) && CanEnter(t, id, parent) && t.root.Some?
    requires Shape(Enter(t, id, parent).tree, t.root.value)
    ensures forall a <- t.tree ::
              Under(Enter(t, id, parent).tree, t.root.value, a, id) <==> Under(t.tree, t.root.value, a, parent)
    ensures parent !in t.completed ==>
              forall a <- t.tree :: Under(t.tree, t.root.value, a, parent) ==> a !in t.completed
  {
    var root := t.root.value;
    var tree := Enter(t, id, parent).tree;
    forall a | a in t.tree
      ensures Under(tree, root, a, id) <==> Under(t.tree, root, a, parent)
    {
      assert HasParent(tree, id);
      UnderAfterEnter(t, id, parent, a, parent);
    }
    if parent !in t.completed {
      var d :| d in t.tree && Under(t.tree, root, parent, d) && d !in t.exited;
      forall a | a in t.tree && Under(t.tree, root, a, parent) ensures a !in t.completed {
        UnderTransitive(t.tree, root, a, parent, d);
      }
    }
  }

  /** Leaving a scope puts the walk at that scope: only flags of scopes above it can be out of date. */
  lemma ExitStartsClimb(t: Tracker, id: Id)
    requires Inv(t) && CanExit(t, id)
    ensures Climbing(t.tree, t.root.value, t.exited + {id}, t.completed, id)
  {
    var tree, root, exited := t.tree, t.root.value, t.exited + {id};
    forall a | a in tree
      ensures if Under(tree, root, a, id) then a !in t.completed
              else a in t.completed <==> SubtreeExited(tree, root, exited, a)
    {
      if !Under(tree, root, a, id) {
        assert SubtreeExited(tree, root, exited, a) <==> SubtreeExited(tree, root, t.exited, a);
      }
    }
    forall a, c | a in tree && c in tree[a].nested && a in t.completed ensures c in t.completed {
      SubtreeByChildren(tree, root, t.exited, a);
    }
  }

  /** Leaving a scope keeps the invariant, drops the state exactly when no entered scope is left open,
      and by then has ended every scope once, children first. */
  lemma ExitKeepsInv(t: Tracker, id: Id)
    requires Inv(t) && CanExit(t, id)
    ensures var u := Exit(t, id);
            && Inv(u)
            && (u.root.None? <==> t.tree.Keys <= t.exited + {id})
            && (u.root.None? ==> Elements(u.ended) == t.tree.Keys)
            && EndsChildrenFirst(t.tree, u.ended)
            && t.ended <= u.ended
            && (u.root.Some? ==> u.root == t.root && u.tree == t.tree && u.exited == t.exited + {id})
  {
    var tree, root, exited := t.tree, t.root.value, t.exited + {id};
    var climbed := Climb(tree, root, exited, t.completed, id);
    ExitStartsClimb(t, id);
    ClimbIsExact(tree, root, exited, t.completed, id);
    ClimbEndsInOrder(tree, root, exited, t.completed, id, t.ended);
    var done := t.completed + Elements(climbed);
    assert Elements(t.ended + climbed) == done;
    CompletedIsFlag(tree, done, root);
    forall d | d in tree ensures Under(tree, root, root, d) {
      UnderRoot(tree, root, d);
    }
  }
}
