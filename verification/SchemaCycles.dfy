/**
A condition on the graph alone under which a printed schema means what the graph means.
*/
module SchemaCycles {
  import opened Wrappers
  import opened Specification
  import opened References
  import opened AliasReferences
  import opened SchemaMeaning

  // ----- Reaching -------------------------------------------------------------------------------

  /** Each attribute on the path is a part of the one before it. */
  ghost predicate Path(graph: Graph, path: seq<nat>) {
    && |path| > 1
    && (forall j | 0 <= j < |path| :: path[j] < |graph|)
    && (forall j | 0 < j < |path| :: path[j] in graph[path[j - 1]].parts)
  }

  ghost predicate Reaches(graph: Graph, i: nat, k: nat) {
    exists path :: Path(graph, path) && path[0] == i && path[|path| - 1] == k
  }

  ghost predicate Cyclic(graph: Graph, k: nat) {
    Reaches(graph, k, k)
  }

  ghost predicate From(graph: Graph, root: nat, k: nat) {
    root == k || Reaches(graph, root, k)
  }

  lemma ReachesPart(graph: Graph, i: nat, p: nat)
    requires i < |graph| && p < |graph| && p in graph[i].parts
    ensures Reaches(graph, i, p)
  {
    assert Path(graph, [i, p]);
  }

  lemma ReachesOn(graph: Graph, i: nat, k: nat, p: nat)
    requires Reaches(graph, i, k) && k < |graph| && p < |graph| && p in graph[k].parts
    ensures Reaches(graph, i, p)
  {
    var path :| Path(graph, path) && path[0] == i && path[|path| - 1] == k;
    assert Path(graph, path + [p]);
  }

  lemma FromPart(graph: Graph, i: nat, p: nat, k: nat)
    requires i < |graph| && p < |graph| && p in graph[i].parts && From(graph, p, k)
    ensures Reaches(graph, i, k)
  {
    if p == k {
      ReachesPart(graph, i, p);
    } else {
      var path :| Path(graph, path) && path[0] == p && path[|path| - 1] == k;
      assert Path(graph, [i] + path);
    }
  }

  // ----- What is marked lies on a cycle ---------------------------------------------------------

  /** Whatever is newly marked lies on a cycle, and whatever is newly guarded can be reached from here. */
  ghost predicate OnCycles(graph: Graph, guard: Guard, after: Guard, starts: set<nat>) {
    && (forall k <- after | after[k] && !(k in guard && guard[k]) :: Cyclic(graph, k))
    && (forall k <- after | k !in guard :: exists p :: p in starts && From(graph, p, k))
  }

  lemma {:induction false} PrintIsOnCycles(graph: Graph, open: set<nat>, guard: Guard, i: nat)
    requires Valid(graph) && i < |graph| && Within(graph, guard) && open <= guard.Keys
    requires Lost(graph, open, guard, i) == {} && forall k <- open :: Reaches(graph, k, i)
    ensures OnCycles(graph, guard, Print(graph, guard, i).1, {i})
    decreases Unguarded(graph, guard), 0
  {
    if i !in guard && !graph[i].kind.Unsupported? {
      assert i in Unguarded(graph, guard) && i !in Unguarded(graph, guard[i := false]);
      PrintNodeIsOnCycles(graph, open + {i}, guard[i := false], i);
      var inside, after := PrintNode(graph, guard[i := false], i).1, Print(graph, guard, i).1;
      forall k | k in after && k !in guard ensures exists p :: p in {i} && From(graph, p, k) {
        assert i in {i};
        if k != i {
          assert k in inside && k !in guard[i := false];
          FromParts(graph, i, k);
        }
        assert From(graph, i, k);
      }
      forall k | k in after && after[k] && !(k in guard && guard[k]) ensures Cyclic(graph, k) {
        assert k in inside && inside[k] && !(k in guard[i := false] && guard[i := false][k]);
      }
    }
  }

  ghost function Parts(graph: Graph, i: nat): set<nat>
    requires i < |graph|
  {
    set p | p in graph[i].parts
  }

  lemma FromParts(graph: Graph, i: nat, k: nat)
    requires Valid(graph) && i < |graph| && exists p :: p in Parts(graph, i) && From(graph, p, k)
    ensures From(graph, i, k)
  {
    var p :| p in Parts(graph, i) && From(graph, p, k);
    assert ProperNode(graph, i);
    FromPart(graph, i, p, k);
  }

  lemma {:induction false} PrintNodeIsOnCycles(graph: Graph, open: set<nat>, guard: Guard, i: nat)
    requires Valid(graph) && i < |graph| && !graph[i].kind.Unsupported? && Within(graph, guard) && open <= guard.Keys
    requires LostInside(graph, open, guard, i) == {} && i in open
    requires forall k <- open | k != i :: Reaches(graph, k, i)
    ensures OnCycles(graph, guard, PrintNode(graph, guard, i).1, Parts(graph, i))
    decreases Unguarded(graph, guard), |graph[i].parts| + 2
  {
    assert ProperNode(graph, i);
    forall k, p | k in open && p in graph[i].parts ensures Reaches(graph, k, p) {
      if k == i {
        ReachesPart(graph, i, p);
      } else {
        ReachesOn(graph, k, i, p);
      }
    }
    if Through(graph, i) {
      PrintIsOnCycles(graph, open, guard, graph[i].parts[0]);
    } else {
      PrintAllIsOnCycles(graph, open, guard, graph[i].parts);
    }
  }

  lemma {:induction false} PrintAllIsOnCycles(graph: Graph, open: set<nat>, guard: Guard, parts: seq<nat>)
    requires Valid(graph) && Within(graph, guard) && open <= guard.Keys
    requires (forall j | 0 <= j < |parts| :: parts[j] < |graph|) && LostInParts(graph, open, guard, parts) == {}
    requires forall k, p | k in open && p in parts :: Reaches(graph, k, p)
    ensures OnCycles(graph, guard, PrintAll(graph, guard, parts).1, set p | p in parts)
    decreases Unguarded(graph, guard), |parts| + 1
  {
    if parts != [] {
      var (first, between) := Print(graph, guard, parts[0]);
      PrintIsOnCycles(graph, open, guard, parts[0]);
      forall k | k in between && k !in guard ensures exists p :: p in parts && From(graph, p, k) {
        var p :| p in {parts[0]} && From(graph, p, k);
        assert p in parts;
      }
      if first.Ok? {
        assert between.Keys == guard.Keys || Unguarded(graph, between) <= Unguarded(graph, guard);
        PrintStaysWithin(graph, guard, parts[0]);
        PrintAllIsOnCycles(graph, open, between, parts[1..]);
        var after := PrintAll(graph, between, parts[1..]).1;
        forall k | k in after && k !in guard ensures exists p :: p in parts && From(graph, p, k) {
          if k !in between {
            var p :| p in (set q | q in parts[1..]) && From(graph, p, k);
            assert p in parts;
          }
        }
      }
    }
  }

  // ----- References and definitions -------------------------------------------------------------

  lemma {:induction false} FindIff(schema: Schema, x: string)
    ensures Find(schema, x).Some? <==> Identifies(schema, x)
    decreases schema, |schema.parts| + 1
  {
    if schema.id != Some(x) {
      assert schema.parts[0..] == schema.parts;
      FindAnyIff(schema, 0, x);
    }
  }

  lemma {:induction false} FindAnyIff(whole: Schema, from: nat, x: string)
    requires from <= |whole.parts|
    ensures FindAny(whole, whole.parts[from..], x).Some? <==>
            exists j :: from <= j < |whole.parts| && Identifies(whole.parts[j], x)
    decreases whole, |whole.parts| - from
  {
    if from < |whole.parts| {
      assert whole.parts[from..][0] == whole.parts[from] && whole.parts[from..][1..] == whole.parts[from + 1..];
      FindIff(whole.parts[from], x);
      FindAnyIff(whole, from + 1, x);
    }
  }

  lemma {:induction false} OccursRefers(graph: Graph, document: Schema, root: nat, t: Schema, k: nat)
    requires Valid(graph) && Grounded(graph) && root < |graph| && Occurs(graph, document, root, t, k)
    requires t.keyword.Reference?
    ensures Refers(document, t.keyword.name)
    decreases document
  {
    if t != document {
      var j :| 0 <= j < |document.parts| && j < |PartsOf(graph, root)|
               && Occurs(graph, document.parts[j], PartsOf(graph, root)[j], t, k);
      OccursRefers(graph, document.parts[j], PartsOf(graph, root)[j], t, k);
    }
  }

  lemma SameCoreSameTrees(graph: Graph, i: nat, k: nat)
    requires Valid(graph) && Grounded(graph) && i < |graph| && k < |graph| && Core(graph, i) == Core(graph, k)
    ensures SameTrees(graph, i, k)
  {
  }

  /** Attributes that can be reached, lie on a cycle and share a type name describe the same tree; as they do
      when they are the same structure. */
  ghost predicate CyclesAgree(graph: Graph, root: nat)
    requires Valid(graph) && Grounded(graph) && root < |graph|
  {
    forall c: nat, e: nat | c < |graph| && e < |graph| && From(graph, root, c) && From(graph, root, e)
                            && Cyclic(graph, c) && Cyclic(graph, e) && TypeName(graph, c) == TypeName(graph, e) ::
      SameTrees(graph, c, e)
  }

  lemma SameNamesSameTrees(graph: Graph, root: nat, keys: set<nat>, k: nat, m: nat, x: string)
    requires Valid(graph) && Grounded(graph) && root < |graph| && k < |graph| && m < |graph| && CyclesAgree(graph, root)
    requires forall c <- keys :: c < |graph| && From(graph, root, c) && Cyclic(graph, c)
    requires Named(graph, keys, k, x) && Named(graph, keys, m, x)
    ensures SameTrees(graph, k, m)
  {
    var c: nat :| c in keys && c < |graph| && Core(graph, c) == Core(graph, k) && Identifier(graph, c) == x;
    var e: nat :| e in keys && e < |graph| && Core(graph, e) == Core(graph, m) && Identifier(graph, e) == x;
    assert Identifier(graph, c)[1..] == TypeName(graph, c) && Identifier(graph, e)[1..] == TypeName(graph, e);
    SameCoreSameTrees(graph, k, c);
    SameCoreSameTrees(graph, e, m);
    assert SameTrees(graph, c, e);
    forall depth: nat ensures AttributeTree(graph, k, depth) == AttributeTree(graph, m, depth) {
      assert AttributeTree(graph, k, depth) == AttributeTree(graph, c, depth);
      assert AttributeTree(graph, c, depth) == AttributeTree(graph, e, depth);
    }
  }

  /** The schema means what the graph means when aliases are tame and type names tell recursive attributes
      apart, as far as it matters; both can be seen from the graph. */
  lemma SchemaDescribesTameGraph(graph: Graph, i: nat)
    requires Valid(graph) && Grounded(graph) && i < |graph| && Print(graph, map[], i).0.Ok?
    requires TameAliases(graph, i) && CyclesAgree(graph, i)
    ensures var schema := Print(graph, map[], i).0.value;
            Describes(graph, schema, schema, i)
  {
    var (result, after) := Print(graph, map[], i);
    var schema, keys := result.value, Marked(after);
    PrintMatches(graph, map[], i);
    TameAliasesLoseNothing(graph, i);
    PrintIsOnCycles(graph, {}, map[], i);
    PrintStaysWithin(graph, map[], i);
    forall c | c in keys ensures c < |graph| && From(graph, i, c) && Cyclic(graph, c) {
      var p :| p in {i} && From(graph, p, c);
    }
    forall t: Schema, k: nat | k < |graph| && t.keyword.Reference? && Occurs(graph, schema, i, t, k)
      ensures RightlyDefined(graph, schema, i, t.keyword.name, k)
    {
      var x := t.keyword.name;
      OccursRefers(graph, schema, i, t, k);
      ReferencesAreIdentified(graph, i, x);
      FindIff(schema, x);
      DefinitionIsRight(graph, i, keys, schema, t, k);
    }
    SchemaDescribesGraphIff(graph, i);
  }

  lemma DefinitionIsRight(graph: Graph, root: nat, keys: set<nat>, schema: Schema, t: Schema, k: nat)
    requires Valid(graph) && Grounded(graph) && root < |graph| && k < |graph| && CyclesAgree(graph, root)
    requires forall c <- keys :: c < |graph| && From(graph, root, c) && Cyclic(graph, c)
    requires Matches(graph, keys, schema, root) && Occurs(graph, schema, root, t, k) && t.keyword.Reference?
    requires Find(schema, t.keyword.name).Some?
    ensures RightlyDefined(graph, schema, root, t.keyword.name, k)
  {
    var x := t.keyword.name;
    var m := FoundOccurs(graph, keys, schema, root, x);
    OccursMatches(graph, keys, schema, root, t, k);
    OccursMatches(graph, keys, schema, root, Find(schema, x).value, m);
    SameNamesSameTrees(graph, root, keys, k, m, x);
  }
}
