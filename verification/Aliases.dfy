/**
Resolving the placeholders of a recursive type alias in a cyclic graph of attributes that grows while it is
walked.
*/
module Aliases {
  import opened Wrappers

  /** An annotation given to an attribute, as far as resolution looks at it. */
  datatype Mark = Renamed(alias: string) | Validating | Other

  /** Attributes refer to each other by the order in which they were made.  `Structure` stands for every
      attribute that is neither an alias nor a validable wrapper. */
  datatype Node =
    | Placeholder(name: string, mod: string, marks: seq<Mark>, resolved: Option<nat>)
    | Validable(attribute: nat)
    | Structure(children: seq<nat>)

  type Graph = seq<Node>

  /** The alias to resolve, and what it stands for. */
  datatype Alias = Alias(name: string, mod: string, target: nat)

  function Successors(node: Node): seq<nat> {
    match node
    case Placeholder(_, _, _, resolved) => if resolved.Some? then [resolved.value] else []
    case Validable(attribute) => [attribute]
    case Structure(children) => children
  }

  /** One attribute leads to another: a resolved placeholder to what it stands for, a wrapper to what it wraps, and
      any other attribute to its parts. */
  ghost predicate Edge(from: Node, to: nat) {
    || (from.Placeholder? && from.resolved == Some(to))
    || (from.Validable? && from.attribute == to)
    || (from.Structure? && exists k :: 0 <= k < |from.children| && from.children[k] == to)
  }

  /** A validable wrapper is made around an attribute that exists; the other references may be cyclic. */
  ghost predicate Valid(graph: Graph) {
    forall i | 0 <= i < |graph| ::
      && (forall s <- Successors(graph[i]) :: s < |graph|)
      && (graph[i].Validable? ==> graph[i].attribute < i)
  }

  /** The attribute inside all validable wrappers. */
  ghost function Core(graph: Graph, i: nat): Node
    requires Valid(graph) && i < |graph|
  {
    if graph[i].Validable? then Core(graph, graph[i].attribute) else graph[i]
  }

  ghost predicate Proper(graph: Graph, alias: Alias) {
    Valid(graph) && alias.target < |graph| && Core(graph, alias.target).Structure?
  }

  // ----- The code -------------------------------------------------------------------------------

  function FirstRename(marks: seq<Mark>): Option<string> {
    if marks == [] then None
    else if marks[0].Renamed? then Some(marks[0].alias)
    else FirstRename(marks[1..])
  }

  /** The `alias` of a placeholder that is not resolved: its own alias annotation hides its name. */
  function Label(node: Node): string
    requires node.Placeholder?
  {
    if FirstRename(node.marks).Some? then FirstRename(node.marks).value else node.name
  }

  predicate Unresolved(node: Node) {
    node.Placeholder? && node.resolved.None?
  }

  /** The placeholders that the walk resolves when it gets to them. */
  predicate Wanted(alias: Alias, node: Node) {
    Unresolved(node) && Label(node) == alias.name && node.mod == alias.mod
  }

  /** More nodes, none of them a placeholder. */
  ghost predicate Extends(graph: Graph, extended: Graph) {
    graph <= extended && forall k | |graph| <= k < |extended| :: !extended[k].Placeholder?
  }

  /** `annotated`: the graph with the copies it makes, and the annotated attribute. */
  function Annotated(graph: Graph, i: nat, marks: seq<Mark>): (r: (Graph, nat))
    requires Valid(graph) && i < |graph| && Core(graph, i).Structure?
    ensures Extends(graph, r.0) && Valid(r.0) && r.1 < |r.0|
    ensures Core(r.0, r.1) == Core(graph, i)
  {
    if marks == [] then (graph, i)
    else
      match graph[i]
      case Validable(attribute) =>
        var (copied, inner) := Annotated(graph, attribute, marks);
        CoreKept(copied, copied + [Validable(inner)], inner);
        (copied + [Validable(inner)], |copied|)
      case Structure(_) =>
        if Validating in marks then (graph + [graph[i]] + [Validable(|graph|)], |graph| + 1)
        else (graph + [graph[i]], |graph|)
  }

  /** `resolve`, called on an unresolved placeholder. */
  function Resolve(graph: Graph, alias: Alias, i: nat): (r: Graph)
    requires Proper(graph, alias) && i < |graph| && Unresolved(graph[i])
  {
    var (copied, target) := Annotated(graph, alias.target, graph[i].marks);
    copied[i := copied[i].(resolved := Some(target))]
  }

  datatype Walked = Walked(graph: Graph, visited: set<nat>)

  ghost function Pending(alias: Alias, graph: Graph): set<nat> {
    set i | 0 <= i < |graph| && Wanted(alias, graph[i])
  }

  ghost function Unvisited(graph: Graph, visited: set<nat>): set<nat> {
    set i | 0 <= i < |graph| && i !in visited
  }

  /** What a part of the walk does, whatever it starts from. */
  ghost predicate Progress(alias: Alias, before: Walked, after: Walked) {
    && Proper(after.graph, alias)
    && |before.graph| <= |after.graph|
    && before.visited <= after.visited
    && (forall i | 0 <= i < |before.graph| && (i in before.visited || i !in after.visited) ::
          after.graph[i] == before.graph[i])
    && Pending(alias, after.graph) <= Pending(alias, before.graph)
    && (Pending(alias, after.graph) == Pending(alias, before.graph) ==> after.graph == before.graph)
  }

  /** `_finalize_alias_resolution`. */
  function Finalize(alias: Alias, w: Walked, i: nat): (r: Walked)
    requires Proper(w.graph, alias) && i < |w.graph|
    ensures Progress(alias, w, r)
    decreases Pending(alias, w.graph), Unvisited(w.graph, w.visited), 0
  {
    if i in w.visited then w
    else
      var visited := w.visited + {i};
      assert i in Unvisited(w.graph, w.visited) && i !in Unvisited(w.graph, visited);
      if Wanted(alias, w.graph[i]) then
        ResolveProgress(w, alias, i);
        var graph := Resolve(w.graph, alias, i);
        Finalize(alias, Walked(graph, visited), graph[i].resolved.value)
      else
        FinalizeAll(alias, Walked(w.graph, visited), Successors(w.graph[i]))
  }

  function FinalizeAll(alias: Alias, w: Walked, attributes: seq<nat>): (r: Walked)
    requires Proper(w.graph, alias) && forall i <- attributes :: i < |w.graph|
    ensures Progress(alias, w, r)
    decreases Pending(alias, w.graph), Unvisited(w.graph, w.visited), |attributes| + 1
  {
    if attributes == [] then w
    else
      assert attributes[0] in attributes && forall i <- attributes[1..] :: i in attributes;
      var first := Finalize(alias, w, attributes[0]);
      FinalizeAll(alias, first, attributes[1..])
  }

  // ----- What is wanted, and what is made of the target -----------------------------------------

  ghost predicate IsFirstRename(marks: seq<Mark>, name: string, k: nat) {
    k < |marks| && marks[k] == Renamed(name) && forall j | 0 <= j < k :: !marks[j].Renamed?
  }

  /** What a placeholder is taken to name: what its first alias annotation says, if there is one. */
  ghost predicate Names(node: Node, name: string)
    requires node.Placeholder?
  {
    if forall k | 0 <= k < |node.marks| :: !node.marks[k].Renamed? then node.name == name
    else exists k: nat :: IsFirstRename(node.marks, name, k)
  }

  lemma {:induction false} FirstRenameIsFirst(marks: seq<Mark>)
    ensures FirstRename(marks).None? <==> forall k | 0 <= k < |marks| :: !marks[k].Renamed?
    ensures FirstRename(marks).Some? ==> exists k: nat :: IsFirstRename(marks, FirstRename(marks).value, k)
  {
    if marks != [] {
      FirstRenameIsFirst(marks[1..]);
      if marks[0].Renamed? {
        assert IsFirstRename(marks, marks[0].alias, 0);
      } else if FirstRename(marks).Some? {
        var k: nat :| IsFirstRename(marks[1..], FirstRename(marks).value, k);
        assert marks[k + 1] == marks[1..][k];
        assert IsFirstRename(marks, FirstRename(marks).value, k + 1);
      }
    }
  }

  /** An unresolved placeholder of the module of the alias that names it. */
  ghost predicate Refers(node: Node, alias: Alias) {
    node.Placeholder? && node.resolved.None? && node.mod == alias.mod && Names(node, alias.name)
  }

  lemma WantedIff(alias: Alias, node: Node)
    ensures Wanted(alias, node) <==> Refers(node, alias)
  {
    if node.Placeholder? {
      FirstRenameIsFirst(node.marks);
      if FirstRename(node.marks).Some? {
        var k: nat :| IsFirstRename(node.marks, FirstRename(node.marks).value, k);
        forall l: nat | IsFirstRename(node.marks, alias.name, l) ensures l == k {
        }
      }
    }
  }

  /** How often an attribute is wrapped. */
  ghost function Layers(graph: Graph, i: nat): nat
    requires Valid(graph) && i < |graph|
  {
    if graph[i].Validable? then 1 + Layers(graph, graph[i].attribute) else 0
  }

  lemma {:induction false} LayersKept(graph: Graph, after: Graph, i: nat)
    requires Valid(graph) && Valid(after) && i < |graph| <= |after| && Core(graph, i).Structure?
    requires forall k | 0 <= k < |graph| && !graph[k].Placeholder? :: after[k] == graph[k]
    ensures Layers(after, i) == Layers(graph, i)
    decreases i
  {
    if graph[i].Validable? {
      LayersKept(graph, after, graph[i].attribute);
    }
  }

  /** Without annotations the target itself is meant.  With them a copy is, made of new attributes and wrapped as
      often as the target, and once more when it is to be validated. */
  lemma {:induction false} AnnotatedIsCopy(graph: Graph, i: nat, marks: seq<Mark>)
    requires Valid(graph) && i < |graph| && Core(graph, i).Structure?
    ensures var (copied, at) := Annotated(graph, i, marks);
            && (marks == [] ==> copied == graph && at == i)
            && (marks != [] ==> |graph| <= at == |copied| - 1)
            && Layers(copied, at) == Layers(graph, i) + if Validating in marks then 1 else 0
    decreases i
  {
    if marks != [] {
      var (copied, at) := Annotated(graph, i, marks);
      match graph[i]
      case Validable(attribute) =>
        AnnotatedIsCopy(graph, attribute, marks);
        var (middle, inner) := Annotated(graph, attribute, marks);
        assert copied == middle + [Validable(inner)];
        LayersKept(middle, copied, inner);
      case Structure(_) =>
    }
  }

  // ----- One resolution -------------------------------------------------------------------------

  /** What is inside a wrapper stays when only placeholders change. */
  lemma {:induction false} CoreKept(graph: Graph, after: Graph, i: nat)
    requires Valid(graph) && Valid(after) && i < |graph| <= |after| && Core(graph, i).Structure?
    requires forall k | 0 <= k < |graph| && !graph[k].Placeholder? :: after[k] == graph[k]
    ensures Core(after, i) == Core(graph, i)
  {
    if graph[i].Validable? {
      CoreKept(graph, after, graph[i].attribute);
    }
  }

  /** An attribute stands for the target to someone who annotates it so: it is the target, or one like it that is
      to be validated as well. */
  ghost predicate Represents(alias: Alias, graph: Graph, marks: seq<Mark>, i: nat)
    requires Proper(graph, alias)
  {
    && i < |graph|
    && Core(graph, i) == Core(graph, alias.target)
    && Layers(graph, i) == Layers(graph, alias.target) + (if Validating in marks then 1 else 0)
    && (marks == [] <==> i == alias.target)
  }

  lemma RepresentsLater(alias: Alias, graph: Graph, after: Graph, marks: seq<Mark>, i: nat)
    requires Proper(graph, alias) && Valid(after) && |graph| <= |after|
    requires forall k | 0 <= k < |graph| && !graph[k].Placeholder? :: after[k] == graph[k]
    requires Represents(alias, graph, marks, i)
    ensures Proper(after, alias) && Represents(alias, after, marks, i)
  {
    CoreKept(graph, after, i);
    CoreKept(graph, after, alias.target);
    LayersKept(graph, after, i);
    LayersKept(graph, after, alias.target);
  }

  /** Resolving a placeholder makes it refer to what represents the target for it, and changes nothing else. */
  lemma ResolveEffect(graph: Graph, alias: Alias, i: nat)
    requires Proper(graph, alias) && i < |graph| && Unresolved(graph[i])
    ensures var after := Resolve(graph, alias, i);
            && Proper(after, alias)
            && |graph| <= |after|
            && Extends(graph[i := after[i]], after)
            && after[i].Placeholder? && after[i].resolved.Some?
            && after[i] == graph[i].(resolved := after[i].resolved)
            && Core(after, alias.target) == Core(graph, alias.target)
            && Represents(alias, after, graph[i].marks, after[i].resolved.value)
  {
    var (copied, target) := Annotated(graph, alias.target, graph[i].marks);
    var after := Resolve(graph, alias, i);
    AnnotatedIsCopy(graph, alias.target, graph[i].marks);
    LayersKept(graph, copied, alias.target);
    CoreKept(graph, copied, alias.target);
    assert forall k | 0 <= k < |after| && k != i :: after[k] == copied[k];
    RepresentsLater(alias, copied, after, graph[i].marks, target);
    CoreKept(graph, after, alias.target);
  }

  lemma ResolveProgress(w: Walked, alias: Alias, i: nat)
    requires Proper(w.graph, alias) && i < |w.graph| && Wanted(alias, w.graph[i]) && i !in w.visited
    ensures var after := Resolve(w.graph, alias, i);
            && Progress(alias, w, Walked(after, w.visited + {i}))
            && i !in Pending(alias, after)
            && i in Pending(alias, w.graph)
            && after[i].Placeholder? && after[i].resolved.Some? && after[i].resolved.value < |after|
  {
    ResolveEffect(w.graph, alias, i);
    var after := Resolve(w.graph, alias, i);
    assert forall k | 0 <= k < |w.graph| && k != i :: after[k] == w.graph[i := after[i]][k];
    assert i !in Pending(alias, after) && i in Pending(alias, w.graph);
  }

  // ----- The walk reaches everything ------------------------------------------------------------

  /** What was visited in between leads only to visited attributes, and is not left unresolved. */
  ghost predicate Closed(alias: Alias, before: set<nat>, after: Walked) {
    forall i <- after.visited | i !in before ::
      && i < |after.graph|
      && !Wanted(alias, after.graph[i])
      && (forall s <- Successors(after.graph[i]) :: s in after.visited)
  }

  /** Nothing that was visited is changed later. */
  lemma ClosedLater(alias: Alias, before: set<nat>, middle: Walked, after: Walked)
    requires Progress(alias, middle, after)
    requires Closed(alias, before, middle) && Closed(alias, middle.visited, after)
    ensures Closed(alias, before, after)
  {
    forall i <- after.visited | i !in before
      ensures i < |after.graph| && !Wanted(alias, after.graph[i])
      ensures forall s <- Successors(after.graph[i]) :: s in after.visited
    {
      if i in middle.visited {
        assert after.graph[i] == middle.graph[i];
      }
    }
  }

  lemma {:induction false} FinalizeCloses(alias: Alias, w: Walked, i: nat)
    requires Proper(w.graph, alias) && i < |w.graph|
    ensures i in Finalize(alias, w, i).visited
    ensures Closed(alias, w.visited, Finalize(alias, w, i))
    decreases Pending(alias, w.graph), Unvisited(w.graph, w.visited), 0
  {
    if i !in w.visited {
      var visited := w.visited + {i};
      var after := Finalize(alias, w, i);
      assert i in Unvisited(w.graph, w.visited) && i !in Unvisited(w.graph, visited);
      if Wanted(alias, w.graph[i]) {
        ResolveProgress(w, alias, i);
        var graph := Resolve(w.graph, alias, i);
        FinalizeCloses(alias, Walked(graph, visited), graph[i].resolved.value);
        assert after.graph[i] == graph[i];
      } else {
        FinalizeAllCloses(alias, Walked(w.graph, visited), Successors(w.graph[i]));
        assert after.graph[i] == w.graph[i];
      }
    }
  }

  lemma {:induction false} FinalizeAllCloses(alias: Alias, w: Walked, attributes: seq<nat>)
    requires Proper(w.graph, alias) && forall i <- attributes :: i < |w.graph|
    ensures forall i <- attributes :: i in FinalizeAll(alias, w, attributes).visited
    ensures Closed(alias, w.visited, FinalizeAll(alias, w, attributes))
    decreases Pending(alias, w.graph), Unvisited(w.graph, w.visited), |attributes| + 1
  {
    if attributes != [] {
      assert attributes[0] in attributes && forall i <- attributes[1..] :: i in attributes;
      var first := Finalize(alias, w, attributes[0]);
      FinalizeCloses(alias, w, attributes[0]);
      FinalizeAllCloses(alias, first, attributes[1..]);
      ClosedLater(alias, w.visited, first, FinalizeAll(alias, first, attributes[1..]));
      assert forall i <- attributes :: i == attributes[0] || i in attributes[1..];
    }
  }

  ghost predicate Path(graph: Graph, path: seq<nat>) {
    && path != []
    && (forall k | 0 <= k < |path| :: path[k] < |graph|)
    && (forall k | 0 < k < |path| :: Edge(graph[path[k - 1]], path[k]))
  }

  lemma {:induction false} PathStaysInside(alias: Alias, after: Walked, path: seq<nat>, k: nat)
    requires Path(after.graph, path) && Closed(alias, {}, after) && path[0] in after.visited && k < |path|
    ensures path[k] in after.visited
  {
    if k > 0 {
      PathStaysInside(alias, after, path, k - 1);
    }
  }

  /** However the graph is connected, and whatever the walk adds to it, nothing that the walk should resolve
      can be reached from its start when it is over. */
  lemma NothingWantedIsReachable(alias: Alias, graph: Graph, start: nat, path: seq<nat>)
    requires Proper(graph, alias) && start < |graph|
    requires Path(Finalize(alias, Walked(graph, {}), start).graph, path) && path[0] == start
    ensures var after := Finalize(alias, Walked(graph, {}), start).graph;
            !Refers(after[path[|path| - 1]], alias)
  {
    WantedIff(alias, Finalize(alias, Walked(graph, {}), start).graph[path[|path| - 1]]);
    FinalizeCloses(alias, Walked(graph, {}), start);
    PathStaysInside(alias, Finalize(alias, Walked(graph, {}), start), path, |path| - 1);
  }

  // ----- What is resolved, and to what ----------------------------------------------------------

  /** Only references to the alias change, each to what represents the target for it; whatever is added is no
      placeholder. */
  ghost predicate OnlyResolves(alias: Alias, before: Graph, after: Graph)
    requires Proper(before, alias) && Proper(after, alias) && |before| <= |after|
  {
    && Core(after, alias.target) == Core(before, alias.target)
    && (forall i | |before| <= i < |after| :: !after[i].Placeholder?)
    && (forall i | 0 <= i < |before| && after[i] != before[i] :: Stands(alias, before[i], after, i))
  }

  ghost predicate Stands(alias: Alias, was: Node, after: Graph, i: nat)
    requires Proper(after, alias) && i < |after|
  {
    && Wanted(alias, was)
    && after[i].Placeholder? && after[i].resolved.Some? && after[i] == was.(resolved := after[i].resolved)
    && Represents(alias, after, was.marks, after[i].resolved.value)
  }

  lemma OnlyResolvesLater(alias: Alias, before: Graph, middle: Graph, after: Graph)
    requires Proper(before, alias) && Proper(middle, alias) && Proper(after, alias)
    requires |before| <= |middle| <= |after|
    requires OnlyResolves(alias, before, middle) && OnlyResolves(alias, middle, after)
    ensures OnlyResolves(alias, before, after)
  {
    forall i | 0 <= i < |before| && after[i] != before[i] ensures Stands(alias, before[i], after, i) {
      if middle[i] != before[i] {
        assert Stands(alias, before[i], middle, i);
        assert after[i] == middle[i];
        RepresentsLater(alias, middle, after, before[i].marks, middle[i].resolved.value);
      }
    }
  }

  lemma {:induction false} FinalizeOnlyResolves(alias: Alias, w: Walked, i: nat)
    requires Proper(w.graph, alias) && i < |w.graph|
    ensures OnlyResolves(alias, w.graph, Finalize(alias, w, i).graph)
    decreases Pending(alias, w.graph), Unvisited(w.graph, w.visited), 0
  {
    if i !in w.visited {
      var visited := w.visited + {i};
      assert i in Unvisited(w.graph, w.visited) && i !in Unvisited(w.graph, visited);
      if Wanted(alias, w.graph[i]) {
        ResolveProgress(w, alias, i);
        ResolveEffect(w.graph, alias, i);
        var graph := Resolve(w.graph, alias, i);
        CoreKept(w.graph, graph, alias.target);
        assert forall k | 0 <= k < |w.graph| && k != i :: graph[k] == w.graph[i := graph[i]][k];
        FinalizeOnlyResolves(alias, Walked(graph, visited), graph[i].resolved.value);
        OnlyResolvesLater(alias, w.graph, graph, Finalize(alias, w, i).graph);
      } else {
        FinalizeAllOnlyResolves(alias, Walked(w.graph, visited), Successors(w.graph[i]));
      }
    }
  }

  lemma {:induction false} FinalizeAllOnlyResolves(alias: Alias, w: Walked, attributes: seq<nat>)
    requires Proper(w.graph, alias) && forall i <- attributes :: i < |w.graph|
    ensures OnlyResolves(alias, w.graph, FinalizeAll(alias, w, attributes).graph)
    decreases Pending(alias, w.graph), Unvisited(w.graph, w.visited), |attributes| + 1
  {
    if attributes != [] {
      assert attributes[0] in attributes && forall i <- attributes[1..] :: i in attributes;
      var first := Finalize(alias, w, attributes[0]);
      FinalizeOnlyResolves(alias, w, attributes[0]);
      FinalizeAllOnlyResolves(alias, first, attributes[1..]);
      OnlyResolvesLater(alias, w.graph, first.graph, FinalizeAll(alias, first, attributes[1..]).graph);
    }
  }

  /** A way to an attribute along visited ones. */
  ghost predicate Leads(w: Walked, path: seq<nat>, i: nat) {
    Path(w.graph, path) && path[|path| - 1] == i && forall s <- path :: s in w.visited
  }

  ghost predicate Found(before: set<nat>, starts: seq<nat>, after: Walked) {
    forall i <- after.visited | i !in before :: exists path :: Leads(after, path, i) && path[0] in starts
  }

  lemma LeadsLater(alias: Alias, middle: Walked, after: Walked, path: seq<nat>, i: nat)
    requires Progress(alias, middle, after) && Leads(middle, path, i)
    ensures Leads(after, path, i)
  {
    forall k | 0 < k < |path| ensures path[k] in Successors(after.graph[path[k - 1]]) {
      assert path[k - 1] in path;
    }
  }

  /** Everything found from the successors of a visited attribute is found from that attribute. */
  lemma FoundFrom(before: set<nat>, after: Walked, i: nat)
    requires i < |after.graph| && i in after.visited
    requires Found(before + {i}, Successors(after.graph[i]), after)
    ensures Found(before, [i], after)
  {
    forall j <- after.visited | j !in before ensures exists path :: Leads(after, path, j) && path[0] in [i] {
      if j == i {
        assert Leads(after, [i], i);
      } else {
        var path :| Leads(after, path, j) && path[0] in Successors(after.graph[i]);
        assert Leads(after, [i] + path, j) && ([i] + path)[0] in [i];
      }
    }
  }

  lemma {:induction false} FinalizeFinds(alias: Alias, w: Walked, i: nat)
    requires Proper(w.graph, alias) && i < |w.graph|
    ensures Found(w.visited, [i], Finalize(alias, w, i))
    decreases Pending(alias, w.graph), Unvisited(w.graph, w.visited), 0
  {
    if i !in w.visited {
      var visited := w.visited + {i};
      var after := Finalize(alias, w, i);
      assert i in Unvisited(w.graph, w.visited) && i !in Unvisited(w.graph, visited);
      if Wanted(alias, w.graph[i]) {
        ResolveProgress(w, alias, i);
        var graph := Resolve(w.graph, alias, i);
        FinalizeFinds(alias, Walked(graph, visited), graph[i].resolved.value);
        assert after.graph[i] == graph[i];
      } else {
        FinalizeAllFinds(alias, Walked(w.graph, visited), Successors(w.graph[i]));
        assert after.graph[i] == w.graph[i];
      }
      FoundFrom(w.visited, after, i);
    }
  }

  lemma {:induction false} FinalizeAllFinds(alias: Alias, w: Walked, attributes: seq<nat>)
    requires Proper(w.graph, alias) && forall i <- attributes :: i < |w.graph|
    ensures Found(w.visited, attributes, FinalizeAll(alias, w, attributes))
    decreases Pending(alias, w.graph), Unvisited(w.graph, w.visited), |attributes| + 1
  {
    if attributes != [] {
      assert attributes[0] in attributes && forall i <- attributes[1..] :: i in attributes;
      var first, after := Finalize(alias, w, attributes[0]), FinalizeAll(alias, w, attributes);
      FinalizeFinds(alias, w, attributes[0]);
      FinalizeAllFinds(alias, first, attributes[1..]);
      forall j <- after.visited | j !in w.visited
        ensures exists path :: Leads(after, path, j) && path[0] in attributes
      {
        if j in first.visited {
          var path :| Leads(first, path, j) && path[0] in [attributes[0]];
          LeadsLater(alias, first, after, path, j);
        }
      }
    }
  }

  ghost predicate Reachable(graph: Graph, start: nat, i: nat) {
    exists path :: Path(graph, path) && path[0] == start && path[|path| - 1] == i
  }

  /** The walk resolves exactly the wanted placeholders that can be reached when it is over, and changes
      nothing else. */
  lemma ResolvedIffWantedAndReachable(alias: Alias, graph: Graph, start: nat, i: nat)
    requires Proper(graph, alias) && start < |graph| && i < |graph|
    ensures var after := Finalize(alias, Walked(graph, {}), start).graph;
            && (after[i] != graph[i] <==> Refers(graph[i], alias) && Reachable(after, start, i))
            && (after[i] != graph[i] ==> Stands(alias, graph[i], after, i))
  {
    var r := Finalize(alias, Walked(graph, {}), start);
    FinalizeCloses(alias, Walked(graph, {}), start);
    FinalizeOnlyResolves(alias, Walked(graph, {}), start);
    FinalizeFinds(alias, Walked(graph, {}), start);
    WantedIff(alias, graph[i]);
    if Refers(graph[i], alias) && Reachable(r.graph, start, i) {
      WantedIff(alias, r.graph[i]);
      var path :| Path(r.graph, path) && path[0] == start && path[|path| - 1] == i;
      NothingWantedIsReachable(alias, graph, start, path);
    }
    if r.graph[i] != graph[i] {
      assert Stands(alias, graph[i], r.graph, i);
      var path :| Leads(r, path, i) && path[0] in [start];
    }
  }

  // ----- What is resolved, seen before the walk -------------------------------------------------

  lemma ReachableOn(graph: Graph, start: nat, p: nat, s: nat)
    requires Reachable(graph, start, p) && p < |graph| && s < |graph| && s in Successors(graph[p])
    ensures Reachable(graph, start, s)
  {
    var path :| Path(graph, path) && path[0] == start && path[|path| - 1] == p;
    assert Path(graph, path + [s]);
  }

  /** What the attribute inside the wrappers leads to is reached through them. */
  lemma {:induction false} ReachableByCore(graph: Graph, start: nat, p: nat, s: nat)
    requires Valid(graph) && p < |graph| && Reachable(graph, start, p) && s in Successors(Core(graph, p))
    ensures s < |graph| && Reachable(graph, start, s)
    decreases p
  {
    if graph[p].Validable? {
      ReachableOn(graph, start, p, graph[p].attribute);
      ReachableByCore(graph, start, graph[p].attribute, s);
    } else {
      ReachableOn(graph, start, p, s);
    }
  }

  /** An attribute was reachable from the target before the walk, or is the target inside. */
  ghost predicate KnownBefore(alias: Alias, before: Graph, after: Graph, p: nat)
    requires Proper(after, alias) && p < |after|
  {
    (p < |before| && Reachable(before, alias.target, p)) || Core(after, p) == Core(after, alias.target)
  }

  lemma KnownOn(alias: Alias, before: Graph, after: Graph, p: nat, s: nat)
    requires Proper(before, alias) && Proper(after, alias) && |before| <= |after| && OnlyResolves(alias, before, after)
    requires p < |after| && KnownBefore(alias, before, after, p) && s in Successors(after[p])
    ensures s < |after| && KnownBefore(alias, before, after, s)
  {
    if Core(after, p) == Core(after, alias.target) {
      if !after[p].Validable? {
        assert Path(before, [alias.target]);
        ReachableByCore(before, alias.target, alias.target, s);
      }
    } else if after[p] == before[p] {
      ReachableOn(before, alias.target, p, s);
    } else {
      assert Stands(alias, before[p], after, p);
    }
  }

  lemma {:induction false} KnownAlong(alias: Alias, before: Graph, after: Graph, path: seq<nat>, k: nat)
    requires Proper(before, alias) && Proper(after, alias) && |before| <= |after| && OnlyResolves(alias, before, after)
    requires Path(after, path) && path[0] == alias.target && k < |path|
    ensures KnownBefore(alias, before, after, path[k])
  {
    if k > 0 {
      KnownAlong(alias, before, after, path, k - 1);
      KnownOn(alias, before, after, path[k - 1], path[k]);
    }
  }

  /** An attribute that leads anywhere is not changed, so that paths stay paths. */
  lemma PathStays(alias: Alias, before: Graph, after: Graph, path: seq<nat>)
    requires Proper(before, alias) && Proper(after, alias) && |before| <= |after| && OnlyResolves(alias, before, after)
    requires Path(before, path)
    ensures Path(after, path)
  {
    forall k | 0 < k < |path| ensures path[k] in Successors(after[path[k - 1]]) {
      assert path[k] in Successors(before[path[k - 1]]) && !Unresolved(before[path[k - 1]]);
      assert after[path[k - 1]] == before[path[k - 1]];
    }
  }

  /** The same where some placeholders had been resolved to the target already. */
  lemma ResolvedIffReachableFirst(alias: Alias, before: Graph, graph: Graph, i: nat)
    requires Proper(before, alias) && Proper(graph, alias) && i < |before| <= |graph|
    requires OnlyResolves(alias, before, graph)
    ensures var after := Finalize(alias, Walked(graph, {}), alias.target).graph;
            && (after[i] != graph[i] <==> Refers(graph[i], alias) && Reachable(before, alias.target, i))
            && (after[i] != graph[i] ==> Stands(alias, graph[i], after, i))
  {
    var after := Finalize(alias, Walked(graph, {}), alias.target).graph;
    FinalizeOnlyResolves(alias, Walked(graph, {}), alias.target);
    OnlyResolvesLater(alias, before, graph, after);
    ResolvedIffWantedAndReachable(alias, graph, alias.target, i);
    if after[i] != graph[i] {
      var path :| Path(after, path) && path[0] == alias.target && path[|path| - 1] == i;
      KnownAlong(alias, before, after, path, |path| - 1);
    }
    if Reachable(before, alias.target, i) {
      var path :| Path(before, path) && path[0] == alias.target && path[|path| - 1] == i;
      PathStays(alias, before, after, path);
    }
  }

  /** The walk from the target resolves exactly the wanted placeholders that could be reached from it before, and
      changes nothing else that was there. */
  lemma ResolvedIffReachableBefore(alias: Alias, graph: Graph, i: nat)
    requires Proper(graph, alias) && i < |graph|
    ensures var after := Finalize(alias, Walked(graph, {}), alias.target).graph;
            && (after[i] != graph[i] <==> Refers(graph[i], alias) && Reachable(graph, alias.target, i))
            && (after[i] != graph[i] ==> Stands(alias, graph[i], after, i))
  {
    ResolvedIffReachableFirst(alias, graph, graph, i);
  }

  // ----- A placeholder that stays unresolved ----------------------------------------------------

  /** A reference to the alias that carries an alias annotation of its own is passed over, although it is
      the alias that it names: it is resolved exactly when that annotation happens to repeat the name. */
  lemma NamedIsResolvedIff(alias: Alias, graph: Graph, i: nat)
    requires Proper(graph, alias) && i < |graph| && Reachable(graph, alias.target, i)
    requires Unresolved(graph[i]) && graph[i].name == alias.name && graph[i].mod == alias.mod
    ensures !Unresolved(Finalize(alias, Walked(graph, {}), alias.target).graph[i]) <==>
            (forall k | 0 <= k < |graph[i].marks| :: !graph[i].marks[k].Renamed?) || Names(graph[i], alias.name)
  {
    ResolvedIffReachableBefore(alias, graph, i);
  }

  /** `type Tree = Sequence[Annotated[Tree, Alias("children")]]` */
  lemma RenamedReferenceStaysUnresolved()
    ensures var alias := Alias("Tree", "forest", 0);
            var graph := [Structure([1]), Placeholder("Tree", "forest", [Renamed("children")], None)];
            && Proper(graph, alias)
            && Finalize(alias, Walked(graph, {}), 0).graph == graph
  {
    var alias := Alias("Tree", "forest", 0);
    var graph := [Structure([1]), Placeholder("Tree", "forest", [Renamed("children")], None)];
    assert !Wanted(alias, graph[1]);
    assert Pending(alias, graph) == {};
  }

  /** A reference to another alias of the same module is resolved to this one exactly when its own alias
      annotation repeats the name of this one. */
  lemma ForeignIsResolvedIff(alias: Alias, graph: Graph, i: nat)
    requires Proper(graph, alias) && i < |graph| && Reachable(graph, alias.target, i)
    requires Unresolved(graph[i]) && graph[i].name != alias.name && graph[i].mod == alias.mod
    ensures !Unresolved(Finalize(alias, Walked(graph, {}), alias.target).graph[i]) <==> Names(graph[i], alias.name)
  {
    ResolvedIffReachableBefore(alias, graph, i);
  }

  /** `Sequence[Annotated[Leaf, Alias("Tree")]]` inside `Tree`: the reference to `Leaf` becomes one to `Tree`. */
  lemma ForeignReferenceIsResolved()
    ensures var alias := Alias("Tree", "forest", 0);
            var graph := [Structure([1]), Placeholder("Leaf", "forest", [Renamed("Tree")], None)];
            && Proper(graph, alias)
            && Finalize(alias, Walked(graph, {}), 0).graph[1].Placeholder?
            && !Unresolved(Finalize(alias, Walked(graph, {}), 0).graph[1])
  {
    var alias := Alias("Tree", "forest", 0);
    var graph := [Structure([1]), Placeholder("Leaf", "forest", [Renamed("Tree")], None)];
    assert 1 in Successors(graph[0]) && Wanted(alias, graph[1]);
    var after := Finalize(alias, Walked(graph, {}), 0).graph;
    FinalizeCloses(alias, Walked(graph, {}), 0);
    FinalizeOnlyResolves(alias, Walked(graph, {}), 0);
    assert after[0] == graph[0];
    assert after[1] != graph[1];
    assert Stands(alias, graph[1], after, 1);
  }

  // ----- The walk -------------------------------------------------------------------------------

  /** The attributes that exist, and the ones a walk has visited. */
  class AttributeGraph {
    var nodes: Graph
    var visited: set<nat>

    ghost function State(): Walked
      reads this
    {
      Walked(nodes, visited)
    }

    constructor (graph: Graph)
      ensures State() == Walked(graph, {})
    {
      nodes, visited := graph, {};
    }

    method Annotate(i: nat, marks: seq<Mark>) returns (annotated: nat)
      requires Valid(nodes) && i < |nodes| && Core(nodes, i).Structure?
      modifies this`nodes
      ensures (nodes, annotated) == Annotated(old(nodes), i, marks)
    {
      if marks == [] {
        return i;
      }
      match nodes[i] {
        case Validable(attribute) =>
          var inner := Annotate(attribute, marks);
          nodes := nodes + [Validable(inner)];
        case Structure(_) =>
          nodes := nodes + [nodes[i]];
          if Validating in marks {
            nodes := nodes + [Validable(|nodes| - 1)];
          }
      }
      annotated := |nodes| - 1;
      assert nodes == Annotated(old(nodes), i, marks).0;
    }

    method ResolveNode(alias: Alias, i: nat)
      requires Proper(nodes, alias) && i < |nodes| && Unresolved(nodes[i])
      modifies this`nodes
      ensures nodes == Resolve(old(nodes), alias, i)
    {
      var marks := nodes[i].marks;
      var target := Annotate(alias.target, marks);
      nodes := nodes[i := nodes[i].(resolved := Some(target))];
    }

    method FinalizeNode(alias: Alias, i: nat)
      requires Proper(nodes, alias) && i < |nodes|
      modifies this
      ensures State() == Finalize(alias, old(State()), i)
      decreases Pending(alias, nodes), Unvisited(nodes, visited), 0
    {
      if i in visited {
        return;
      }
      assert i in Unvisited(nodes, visited) && i !in Unvisited(nodes, visited + {i});
      ghost var before := State();
      visited := visited + {i};
      if Wanted(alias, nodes[i]) {
        ResolveProgress(before, alias, i);
        ResolveNode(alias, i);
        FinalizeNode(alias, nodes[i].resolved.value);
      } else {
        var attributes := Successors(nodes[i]);
        FinalizeEach(alias, attributes);
      }
    }

    /** The loops over the parts of an attribute. */
    method FinalizeEach(alias: Alias, attributes: seq<nat>)
      requires Proper(nodes, alias) && forall i <- attributes :: i < |nodes|
      modifies this
      ensures State() == FinalizeAll(alias, old(State()), attributes)
      decreases Pending(alias, nodes), Unvisited(nodes, visited), |attributes| + 1
    {
      ghost var entered := State();
      for k := 0 to |attributes|
        invariant Resumes(alias, entered, State(), attributes[k..])
        invariant FinalizeAll(alias, State(), attributes[k..]) == FinalizeAll(alias, entered, attributes)
      {
        assert attributes[k..][0] == attributes[k] && attributes[k] in attributes[k..];
        assert attributes[k..][1..] == attributes[k + 1..];
        FinalizeFirst(alias, entered, State(), attributes[k..]);
        FinalizeNode(alias, attributes[k]);
      }
    }

    /** What resolving a type alias does once its target is built: the placeholder that stood for it is
        resolved, and then every reference left inside the target. */
    method ResolveAlias(alias: Alias, placeholder: nat)
      requires visited == {}
      requires Proper(nodes, alias) && placeholder < |nodes|
      requires nodes[placeholder] == Placeholder(alias.name, alias.mod, [], None)
      modifies this
      ensures Proper(nodes, alias) && |old(nodes)| <= |nodes|
      ensures forall path | Path(nodes, path) && path[0] == placeholder :: !Refers(nodes[path[|path| - 1]], alias)
      ensures forall i | 0 <= i < |old(nodes)| ::
                nodes[i] != old(nodes)[i] <==>
                i == placeholder || (Refers(old(nodes)[i], alias) && Reachable(old(nodes), alias.target, i))
    {
      ResolveProgress(State(), alias, placeholder);
      ResolveNode(alias, placeholder);
      ghost var resolved := nodes;
      PlaceholderResolved(old(nodes), alias, placeholder);
      FinalizeNode(alias, alias.target);
      FinalizeOnlyResolves(alias, Walked(resolved, {}), alias.target);
      assert nodes[placeholder] == resolved[placeholder];
      forall path | Path(nodes, path) && path[0] == placeholder
        ensures !Refers(nodes[path[|path| - 1]], alias)
      {
        if |path| > 1 {
          assert path[1] in Successors(nodes[placeholder]);
          assert Path(nodes, path[1..]);
          NothingWantedIsReachable(alias, resolved, alias.target, path[1..]);
        }
      }
      forall i | 0 <= i < |old(nodes)|
        ensures nodes[i] != old(nodes)[i] <==>
                i == placeholder || (Refers(old(nodes)[i], alias) && Reachable(old(nodes), alias.target, i))
      {
        ResolvedIffReachableFirst(alias, old(nodes), resolved, i);
      }
    }
  }

  /** A loop that was entered before goes on with what is left. */
  ghost predicate Resumes(alias: Alias, entered: Walked, now: Walked, attributes: seq<nat>) {
    Proper(now.graph, alias) && Progress(alias, entered, now) && forall i <- attributes :: i < |now.graph|
  }

  lemma FinalizeFirst(alias: Alias, entered: Walked, now: Walked, attributes: seq<nat>)
    requires Resumes(alias, entered, now, attributes) && attributes != [] && attributes[0] < |now.graph|
    ensures var first := Finalize(alias, now, attributes[0]);
            && Resumes(alias, entered, first, attributes[1..])
            && FinalizeAll(alias, now, attributes) == FinalizeAll(alias, first, attributes[1..])
    ensures Pending(alias, now.graph) <= Pending(alias, entered.graph)
    ensures Pending(alias, now.graph) == Pending(alias, entered.graph) ==>
              Unvisited(now.graph, now.visited) <= Unvisited(entered.graph, entered.visited)
  {
    assert forall i <- attributes[1..] :: i in attributes;
  }

  /** Resolving the placeholder itself, before the walk. */
  lemma PlaceholderResolved(graph: Graph, alias: Alias, i: nat)
    requires Proper(graph, alias) && i < |graph| && Wanted(alias, graph[i])
    ensures var after := Resolve(graph, alias, i);
            && Proper(after, alias) && |graph| <= |after| && OnlyResolves(alias, graph, after)
            && after[i] != graph[i]
            && forall k | 0 <= k < |graph| && k != i :: after[k] == graph[k]
  {
    ResolveEffect(graph, alias, i);
    var after := Resolve(graph, alias, i);
    CoreKept(graph, after, alias.target);
    assert forall k | 0 <= k < |graph| && k != i :: after[k] == graph[i := after[i]][k];
  }
}
