/**
References in schemas of graphs with aliases: exactly which dangle when type names differ, and a condition
on the graph under which none does.
*/
module AliasReferences {
  import opened Wrappers
  import opened Specification
  import opened References

  // ----- Different names ------------------------------------------------------------------------

  ghost predicate DifferentNames(graph: Graph)
    requires Valid(graph)
  {
    forall i, k | 0 <= i < |graph| && 0 <= k < |graph| && Identifier(graph, i) == Identifier(graph, k) :: i == k
  }

  /** An attribute of that name was met and marked here for the first time. */
  ghost predicate NewlyMarked(graph: Graph, open: set<nat>, guard: Guard, after: Guard, x: string, entered: bool)
    requires Valid(graph) && Within(graph, after)
  {
    exists k :: k in after && after[k] && Identifier(graph, k) == x
                && (k !in guard || (!entered && !guard[k] && k !in open))
  }

  /** Identifiers are those of attributes entered here, and what is lost is not identified here. */
  ghost predicate Apart(graph: Graph, open: set<nat>, guard: Guard, after: Guard, lost: set<string>,
                        schemas: seq<Schema>)
    requires Valid(graph) && Within(graph, after)
  {
    && (forall x | AnyIdentifies(schemas, x) :: NewlyMarked(graph, open, guard, after, x, true))
    && (forall x <- lost :: NewlyMarked(graph, open, guard, after, x, false) && !AnyIdentifies(schemas, x))
  }

  /** The identifier of a schema does not occur again inside it. */
  ghost predicate TopOnce(schema: Schema) {
    schema.id.Some? ==> !AnyIdentifies(schema.parts, schema.id.value)
  }

  lemma ApartBoth(graph: Graph, open: set<nat>, guard: Guard, between: Guard, after: Guard,
                  lost: set<string>, later: set<string>, some: seq<Schema>, more: seq<Schema>)
    requires Valid(graph) && DifferentNames(graph) && Within(graph, between) && Within(graph, after)
    requires Keeps(guard, between) && Keeps(between, after) && open <= guard.Keys
    requires Apart(graph, open, guard, between, lost, some) && Apart(graph, open, between, after, later, more)
    ensures Apart(graph, open, guard, after, lost + later, some + more)
  {
    forall x ensures AnyIdentifies(some + more, x) <==> AnyIdentifies(some, x) || AnyIdentifies(more, x) {
      AnyOfBoth(some, more, x);
    }
    forall x, e | NewlyMarked(graph, open, guard, between, x, e) ensures NewlyMarked(graph, open, guard, after, x, e) {
      var k :| k in between && between[k] && Identifier(graph, k) == x
               && (k !in guard || (!e && !guard[k] && k !in open));
      assert after[k];
    }
    forall x, e | NewlyMarked(graph, open, between, after, x, e) ensures NewlyMarked(graph, open, guard, after, x, e) {
      var k :| k in after && after[k] && Identifier(graph, k) == x
               && (k !in between || (!e && !between[k] && k !in open));
    }
    assert forall x <- lost :: !AnyIdentifies(more, x);
    assert forall x <- later :: !AnyIdentifies(some, x);
  }

  lemma ApartWhenKept(graph: Graph, open: set<nat>, guard: Guard, inside: Guard, lost: set<string>, i: nat,
                      schema: Schema)
    requires Valid(graph) && DifferentNames(graph) && i < |graph| && i !in guard && Within(graph, inside)
    requires Keeps(guard[i := false], inside) && inside[i] && TopOnce(schema)
    requires Apart(graph, open + {i}, guard[i := false], inside, lost, [schema])
    ensures var replaced :=
              if schema.id.Some? && schema.id.value != Identifier(graph, i) then {schema.id.value} else {};
            var s := WithIdentifier(schema, TypeName(graph, i));
            Apart(graph, open, guard, inside, lost + replaced, [s]) && TopOnce(s)
  {
    var name := TypeName(graph, i);
    var s := WithIdentifier(schema, name);
    forall x
      ensures AnyIdentifies([s], x) ==> AnyIdentifies([schema], x) || x == Identifier(graph, i)
      ensures AnyIdentifies(s.parts, x) ==> AnyIdentifies([schema], x)
      ensures AnyIdentifies([s], x) <==> x == Identifier(graph, i) || AnyIdentifies(s.parts, x)
      ensures schema.id == Some(x) ==> AnyIdentifies([schema], x)
    {
      IdentifierEffect(schema, name, x);
      assert [schema][0] == schema && [s][0] == s;
      assert AnyIdentifies([s], x) <==> Identifies(s, x);
      assert AnyIdentifies([schema], x) <==> Identifies(schema, x);
    }
    forall x, e | NewlyMarked(graph, open + {i}, guard[i := false], inside, x, e)
      ensures NewlyMarked(graph, open, guard, inside, x, e) && x != Identifier(graph, i)
    {
      var k :| k in inside && inside[k] && Identifier(graph, k) == x
               && (k !in guard[i := false] || (!e && !guard[i := false][k] && k !in open + {i}));
      assert k != i;
    }
    assert NewlyMarked(graph, open, guard, inside, Identifier(graph, i), true);
    forall x | NewlyMarked(graph, open, guard, inside, x, true)
      ensures NewlyMarked(graph, open, guard, inside, x, false)
    {
    }
  }

  lemma ApartWhenUnmarked(graph: Graph, open: set<nat>, guard: Guard, inside: Guard, after: Guard, lost: set<string>,
                          i: nat,
                          schemas: seq<Schema>)
    requires Valid(graph) && i < |graph| && i !in guard && Within(graph, inside) && Within(graph, after)
    requires Keeps(guard[i := false], inside) && !inside[i] && (after == inside || after == Dropped(inside, i))
    requires Apart(graph, open + {i}, guard[i := false], inside, lost, schemas)
    ensures Apart(graph, open, guard, after, lost, schemas)
  {
    forall x, e | NewlyMarked(graph, open + {i}, guard[i := false], inside, x, e)
      ensures NewlyMarked(graph, open, guard, after, x, e)
    {
      var k :| k in inside && inside[k] && Identifier(graph, k) == x
               && (k !in guard[i := false] || (!e && !guard[i := false][k] && k !in open + {i}));
      assert k != i && k in after && after[k];
    }
  }

  lemma {:induction false} PrintIsApart(graph: Graph, open: set<nat>, guard: Guard, i: nat)
    requires Valid(graph) && DifferentNames(graph) && i < |graph| && Within(graph, guard) && open <= guard.Keys
    requires Print(graph, guard, i).0.Ok?
    ensures var (result, after) := Print(graph, guard, i);
            && Within(graph, after) && TopOnce(result.value)
            && Apart(graph, open, guard, after, Lost(graph, open, guard, i), [result.value])
    decreases Unguarded(graph, guard), 0
  {
    PrintAccounts(graph, open, guard, i);
    if i in guard {
      var s := Print(graph, guard, i).0.value;
      assert forall x :: AnyIdentifies([s], x) <==> Identifies([s][0], x);
    } else {
      assert i in Unguarded(graph, guard) && i !in Unguarded(graph, guard[i := false]);
      var (result, inside) := PrintNode(graph, guard[i := false], i);
      var lost := LostInside(graph, open + {i}, guard[i := false], i);
      PrintNodeIsApart(graph, open + {i}, guard[i := false], i);
      if inside[i] {
        ApartWhenKept(graph, open, guard, inside, lost, i, result.value);
      } else {
        ApartWhenUnmarked(graph, open, guard, inside, Print(graph, guard, i).1, lost, i, [result.value]);
        assert lost + {} == lost;
      }
    }
  }

  lemma {:induction false} PrintNodeIsApart(graph: Graph, open: set<nat>, guard: Guard, i: nat)
    requires Valid(graph) && DifferentNames(graph) && i < |graph| && !graph[i].kind.Unsupported?
    requires Within(graph, guard) && open <= guard.Keys && PrintNode(graph, guard, i).0.Ok?
    ensures var (result, after) := PrintNode(graph, guard, i);
            && Within(graph, after) && TopOnce(result.value)
            && Apart(graph, open, guard, after, LostInside(graph, open, guard, i), [result.value])
    decreases Unguarded(graph, guard), |graph[i].parts| + 2
  {
    var node := graph[i];
    assert ProperNode(graph, i);
    if node.kind.Validable? || node.kind.Alias? {
      PrintIsApart(graph, open, guard, node.parts[0]);
    } else {
      var (results, after) := PrintAll(graph, guard, node.parts);
      PrintAllIsApart(graph, open, guard, node.parts);
      AllTypesHaveNoParts(graph, guard, node.parts);
      CombinedIsFresh(node.kind, results.value);
      var schema := Combine(node.kind, results.value).value;
      forall x ensures AnyIdentifies([schema], x) <==> AnyIdentifies(results.value, x) {
        assert [schema][0] == schema;
      }
    }
  }

  lemma {:induction false} PrintAllIsApart(graph: Graph, open: set<nat>, guard: Guard, parts: seq<nat>)
    requires Valid(graph) && DifferentNames(graph) && Within(graph, guard) && open <= guard.Keys
    requires (forall j | 0 <= j < |parts| :: parts[j] < |graph|) && PrintAll(graph, guard, parts).0.Ok?
    ensures var (results, after) := PrintAll(graph, guard, parts);
            && Within(graph, after)
            && Apart(graph, open, guard, after, LostInParts(graph, open, guard, parts), results.value)
    decreases Unguarded(graph, guard), |parts| + 1
  {
    if parts != [] {
      var (first, between) := Print(graph, guard, parts[0]);
      PrintIsApart(graph, open, guard, parts[0]);
      assert between.Keys == guard.Keys || Unguarded(graph, between) <= Unguarded(graph, guard);
      var (rest, after) := PrintAll(graph, between, parts[1..]);
      PrintAllIsApart(graph, open, between, parts[1..]);
      ApartBoth(graph, open, guard, between, after, Lost(graph, open, guard, parts[0]),
                LostInParts(graph, open, between, parts[1..]), [first.value], rest.value);
    }
  }

  /** When all type names differ, the references without an identifier are exactly the lost ones. */
  lemma DanglesExactlyIfLost(graph: Graph, i: nat, x: string)
    requires Valid(graph) && DifferentNames(graph) && i < |graph| && Print(graph, map[], i).0.Ok?
    ensures var schema := Print(graph, map[], i).0.value;
            Refers(schema, x) && !Identifies(schema, x) <==> x in Lost(graph, {}, map[], i)
  {
    DanglesIffLost(graph, i, x);
    PrintIsApart(graph, {}, map[], i);
    var schema := Print(graph, map[], i).0.value;
    assert AnyIdentifies([schema], x) <==> Identifies([schema][0], x);
  }

  // ----- Aliases that are met again only inside themselves --------------------------------------

  /** The positions lead from `i` to `k` past no attribute twice and none of those passed before. */
  ghost predicate Way(graph: Graph, i: nat, passed: set<nat>, way: seq<nat>, k: nat)
    requires Valid(graph) && i < |graph|
    decreases |way|
  {
    && i !in passed
    && if way == [] then k == i
       else
         assert ProperNode(graph, i);
         way[0] < |graph[i].parts| && Way(graph, graph[i].parts[way[0]], passed + {i}, way[1..], k)
  }

  /** There is one way only from the root to the attribute. */
  ghost predicate OneWay(graph: Graph, root: nat, k: nat)
    requires Valid(graph) && root < |graph|
  {
    forall v: seq<nat>, w: seq<nat> | Way(graph, root, {}, v, k) && Way(graph, root, {}, w, k) :: v == w
  }

  /** Whatever an alias or a wrapper stands for is a part of nothing else. */
  ghost predicate SoleTargets(graph: Graph)
    requires Valid(graph)
  {
    forall p, u | 0 <= p < |graph| && 0 <= u < |graph| && Through(graph, p) && graph[p].parts[0] in graph[u].parts ::
      u == p
  }

  /** Each alias can be reached in one way only, and aliases share what they stand for with nothing; or there
      are none. */
  ghost predicate TameAliases(graph: Graph, root: nat)
    requires Valid(graph) && root < |graph|
  {
    || (forall k | 0 <= k < |graph| :: !graph[k].kind.Alias?)
    || (SoleTargets(graph) && forall k | 0 <= k < |graph| && graph[k].kind.Alias? :: OneWay(graph, root, k))
  }

  /** The attributes on a way, its end included. */
  ghost function Along(graph: Graph, i: nat, way: seq<nat>): set<nat>
    requires Valid(graph) && i < |graph|
    decreases |way|
  {
    assert ProperNode(graph, i);
    if way == [] || way[0] >= |graph[i].parts| then {i} else {i} + Along(graph, graph[i].parts[way[0]], way[1..])
  }

  lemma {:induction false} WayOn(graph: Graph, i: nat, passed: set<nat>, way: seq<nat>, k: nat, j: nat)
    requires Valid(graph) && i < |graph| && k < |graph| && Way(graph, i, passed, way, k) && j < |graph[k].parts|
    requires graph[k].parts[j] !in passed + Along(graph, i, way)
    ensures graph[k].parts[j] < |graph| && Way(graph, i, passed, way + [j], graph[k].parts[j])
    ensures Along(graph, i, way + [j]) == Along(graph, i, way) + {graph[k].parts[j]}
    decreases |way|
  {
    assert ProperNode(graph, k);
    assert ProperNode(graph, i);
    if way == [] {
      assert [j][1..] == [] && way + [j] == [j];
      assert Way(graph, graph[k].parts[j], passed + {i}, [], graph[k].parts[j]);
    } else {
      assert (way + [j])[1..] == way[1..] + [j];
      WayOn(graph, graph[i].parts[way[0]], passed + {i}, way[1..], k, j);
    }
  }

  /** Every alias that was printed and is not open was met on a way that does not go on from here. */
  ghost predicate MetElsewhere(graph: Graph, root: nat, open: set<nat>, guard: Guard, way: seq<nat>)
    requires Valid(graph) && root < |graph| && Within(graph, guard)
  {
    forall k <- guard | graph[k].kind.Alias? && k !in open ::
      exists w: seq<nat> :: Way(graph, root, {}, w, k) && !(way <= w)
  }

  /** Every alias that has joined the guard was met on a way that goes on from here. */
  ghost predicate MetHere(graph: Graph, root: nat, guard: Guard, after: Guard, way: seq<nat>)
    requires Valid(graph) && root < |graph| && Within(graph, after)
  {
    forall k <- after | graph[k].kind.Alias? && k !in guard ::
      exists w: seq<nat> :: Way(graph, root, {}, w, k) && way <= w
  }

  /** The state of the printer at the end of a way along open attributes. */
  ghost predicate Here(graph: Graph, root: nat, open: set<nat>, guard: Guard, way: seq<nat>, i: nat)
    requires Valid(graph) && root < |graph|
  {
    && Within(graph, guard) && open <= guard.Keys
    && (forall k <- guard :: graph[k].kind.Alias? || guard[k] || k in open)
    && MetElsewhere(graph, root, open, guard, way)
    && (i !in open ==> Way(graph, root, {}, way, i) && Along(graph, root, way) == open + {i})
  }

  /** No identifier is ever replaced by another one. */
  ghost predicate NeverReplaced(graph: Graph)
    requires Valid(graph)
  {
    forall guard: Guard, i: nat {:trigger Replaced(graph, guard, i)} |
      i < |graph| && i !in guard && !graph[i].kind.Unsupported? :: Replaced(graph, guard, i) == {}
  }

  ghost predicate OneWayToAliases(graph: Graph, root: nat)
    requires Valid(graph) && root < |graph|
  {
    forall k | 0 <= k < |graph| && graph[k].kind.Alias? :: OneWay(graph, root, k)
  }

  lemma NotLate(graph: Graph, root: nat, open: set<nat>, guard: Guard, way: seq<nat>, i: nat)
    requires Valid(graph) && root < |graph| && i < |graph| && Here(graph, root, open, guard, way, i)
    requires OneWayToAliases(graph, root) && i in guard
    ensures guard[i] || i in open
  {
  }

  ghost predicate Kept(graph: Graph, open: set<nat>, guard: Guard)
    requires Within(graph, guard)
  {
    forall k <- guard :: graph[k].kind.Alias? || guard[k] || k in open
  }

  /** Aliases that are not open were met before this part of the attribute at the end of the way. */
  ghost predicate MetBefore(graph: Graph, root: nat, open: set<nat>, guard: Guard, way: seq<nat>, from: nat)
    requires Valid(graph) && root < |graph| && Within(graph, guard)
  {
    forall k <- guard | graph[k].kind.Alias? && k !in open ::
      exists w: seq<nat> :: Way(graph, root, {}, w, k) && (!(way <= w) || (|w| > |way| && w[|way|] < from))
  }

  lemma HereAtPart(graph: Graph, root: nat, open: set<nat>, guard: Guard, way: seq<nat>, i: nat, j: nat)
    requires Valid(graph) && root < |graph| && i < |graph| && j < |graph[i].parts| && graph[i].parts[j] < |graph|
    requires Within(graph, guard) && open <= guard.Keys && Kept(graph, open, guard)
    requires Way(graph, root, {}, way, i) && Along(graph, root, way) == open
    requires MetBefore(graph, root, open, guard, way, j)
    ensures Here(graph, root, open, guard, way + [j], graph[i].parts[j])
  {
    forall k | k in guard && graph[k].kind.Alias? && k !in open
      ensures exists w: seq<nat> :: Way(graph, root, {}, w, k) && !(way + [j] <= w)
    {
      var w: seq<nat> :| Way(graph, root, {}, w, k) && (!(way <= w) || (|w| > |way| && w[|way|] < j));
    }
    if graph[i].parts[j] !in open {
      WayOn(graph, root, {}, way, i, j);
    }
  }

  lemma MetAfterPart(graph: Graph, root: nat, open: set<nat>, guard: Guard, between: Guard, way: seq<nat>, j: nat)
    requires Valid(graph) && root < |graph| && Within(graph, guard) && Within(graph, between)
    requires guard.Keys <= between.Keys
    requires MetBefore(graph, root, open, guard, way, j) && MetHere(graph, root, guard, between, way + [j])
    ensures MetBefore(graph, root, open, between, way, j + 1)
    ensures MetHere(graph, root, guard, between, way)
  {
    forall k | k in between && graph[k].kind.Alias? && k !in open
      ensures exists w: seq<nat> :: Way(graph, root, {}, w, k) && (!(way <= w) || (|w| > |way| && w[|way|] < j + 1))
    {
      if k in guard {
        var w: seq<nat> :| Way(graph, root, {}, w, k) && (!(way <= w) || (|w| > |way| && w[|way|] < j));
      } else {
        var w: seq<nat> :| Way(graph, root, {}, w, k) && way + [j] <= w;
        assert w[|way|] == (way + [j])[|way|];
      }
    }
    forall k | k in between && graph[k].kind.Alias? && k !in guard
      ensures exists w: seq<nat> :: Way(graph, root, {}, w, k) && way <= w
    {
      var w: seq<nat> :| Way(graph, root, {}, w, k) && way + [j] <= w;
      assert way <= way + [j];
    }
  }

  lemma MetHereBoth(graph: Graph, root: nat, guard: Guard, between: Guard, after: Guard, way: seq<nat>)
    requires Valid(graph) && root < |graph| && Within(graph, between) && Within(graph, after)
    requires MetHere(graph, root, guard, between, way) && MetHere(graph, root, between, after, way)
    ensures MetHere(graph, root, guard, after, way)
  {
  }

  lemma {:induction false} PrintLosesNothing(graph: Graph, root: nat, open: set<nat>, guard: Guard, way: seq<nat>,
                                             i: nat)
    requires Valid(graph) && root < |graph| && i < |graph| && Here(graph, root, open, guard, way, i)
    requires OneWayToAliases(graph, root) && NeverReplaced(graph)
    ensures Lost(graph, open, guard, i) == {}
    ensures var after := Print(graph, guard, i).1;
            Within(graph, after) && Kept(graph, open, after) && MetHere(graph, root, guard, after, way)
    decreases Unguarded(graph, guard), 0
  {
    if i in guard {
      NotLate(graph, root, open, guard, way, i);
    } else if !graph[i].kind.Unsupported? {
      assert i in Unguarded(graph, guard) && i !in Unguarded(graph, guard[i := false]);
      PrintNodeLosesNothing(graph, root, open + {i}, guard[i := false], way, i);
      var inside := PrintNode(graph, guard[i := false], i).1;
      assert Replaced(graph, guard, i) == {};
      LeavingKeeps(graph, root, open, guard, inside, way, i);
    }
  }

  lemma LeavingKeeps(graph: Graph, root: nat, open: set<nat>, guard: Guard, inside: Guard, way: seq<nat>, i: nat)
    requires Valid(graph) && root < |graph| && i < |graph| && Within(graph, inside) && i in inside && i !in guard
    requires Kept(graph, open + {i}, inside) && MetHere(graph, root, guard[i := false], inside, way)
    requires Way(graph, root, {}, way, i)
    ensures var after := if inside[i] || graph[i].kind.Alias? then inside else Dropped(inside, i);
            Within(graph, after) && Kept(graph, open, after) && MetHere(graph, root, guard, after, way)
  {
    var after := if inside[i] || graph[i].kind.Alias? then inside else Dropped(inside, i);
    forall k | k in after && graph[k].kind.Alias? && k !in guard
      ensures exists w: seq<nat> :: Way(graph, root, {}, w, k) && way <= w
    {
      if k == i {
        assert way <= way;
      } else {
        assert k !in guard[i := false];
      }
    }
  }

  lemma {:induction false} PrintNodeLosesNothing(graph: Graph, root: nat, open: set<nat>, guard: Guard, way: seq<nat>,
                                                 i: nat)
    requires Valid(graph) && root < |graph| && i < |graph| && !graph[i].kind.Unsupported?
    requires Within(graph, guard) && open <= guard.Keys && Kept(graph, open, guard)
    requires MetElsewhere(graph, root, open, guard, way)
    requires Way(graph, root, {}, way, i) && Along(graph, root, way) == open
    requires OneWayToAliases(graph, root) && NeverReplaced(graph)
    ensures LostInside(graph, open, guard, i) == {}
    ensures var after := PrintNode(graph, guard, i).1;
            Within(graph, after) && Kept(graph, open, after) && MetHere(graph, root, guard, after, way)
    decreases Unguarded(graph, guard), |graph[i].parts| + 2
  {
    assert ProperNode(graph, i);
    assert MetBefore(graph, root, open, guard, way, 0);
    if Through(graph, i) {
      HereAtPart(graph, root, open, guard, way, i, 0);
      PrintLosesNothing(graph, root, open, guard, way + [0], graph[i].parts[0]);
      MetAfterPart(graph, root, open, guard, Print(graph, guard, graph[i].parts[0]).1, way, 0);
    } else {
      assert graph[i].parts[0..] == graph[i].parts;
      PrintPartsLoseNothing(graph, root, open, guard, way, i, 0);
    }
  }

  lemma {:induction false} PrintPartsLoseNothing(graph: Graph, root: nat, open: set<nat>, guard: Guard, way: seq<nat>,
                                                 i: nat,
                                                 from: nat)
    requires Valid(graph) && root < |graph| && i < |graph| && from <= |graph[i].parts| && ProperNode(graph, i)
    requires Within(graph, guard) && open <= guard.Keys && Kept(graph, open, guard)
    requires MetBefore(graph, root, open, guard, way, from)
    requires Way(graph, root, {}, way, i) && Along(graph, root, way) == open
    requires OneWayToAliases(graph, root) && NeverReplaced(graph)
    ensures LostInParts(graph, open, guard, graph[i].parts[from..]) == {}
    ensures var after := PrintAll(graph, guard, graph[i].parts[from..]).1;
            Within(graph, after) && Kept(graph, open, after) && MetHere(graph, root, guard, after, way)
    decreases Unguarded(graph, guard), |graph[i].parts| - from + 1
  {
    var parts := graph[i].parts[from..];
    if parts != [] {
      var p := graph[i].parts[from];
      assert parts[0] == p && parts[1..] == graph[i].parts[from + 1..];
      HereAtPart(graph, root, open, guard, way, i, from);
      PrintLosesNothing(graph, root, open, guard, way + [from], p);
      var between := Print(graph, guard, p).1;
      MetAfterPart(graph, root, open, guard, between, way, from);
      assert between.Keys == guard.Keys || Unguarded(graph, between) <= Unguarded(graph, guard);
      PrintPartsLoseNothing(graph, root, open, between, way, i, from + 1);
      MetHereBoth(graph, root, guard, between, PrintAll(graph, between, parts[1..]).1, way);
    }
  }

  // ----- No identifier is replaced --------------------------------------------------------------

  /** Without aliases an attribute gets no identifier but its own. */
  lemma {:induction false} IdentifierIsOwn(graph: Graph, guard: Guard, i: nat)
    requires Valid(graph) && (forall k | 0 <= k < |graph| :: !graph[k].kind.Alias?) && i < |graph|
    requires Print(graph, guard, i).0.Ok? && Print(graph, guard, i).0.value.id.Some?
    ensures Print(graph, guard, i).0.value.id.value == Identifier(graph, i)
    decreases Unguarded(graph, guard)
  {
    if i !in guard {
      assert i in Unguarded(graph, guard) && i !in Unguarded(graph, guard[i := false]);
      assert ProperNode(graph, i);
      var (result, inside) := PrintNode(graph, guard[i := false], i);
      if graph[i].kind.Validable? {
        if result.value.id.Some? {
          IdentifierIsOwn(graph, guard[i := false], graph[i].parts[0]);
        }
      } else {
        FreshAtNode(graph, guard[i := false], i);
      }
    }
  }

  lemma FreshAtNode(graph: Graph, guard: Guard, i: nat)
    requires Valid(graph) && i < |graph| && !graph[i].kind.Unsupported? && !Through(graph, i)
    requires PrintNode(graph, guard, i).0.Ok?
    ensures PrintNode(graph, guard, i).0.value.id.None?
  {
    var node := graph[i];
    assert ProperNode(graph, i);
    AllTypesHaveNoParts(graph, guard, node.parts);
    CombinedIsFresh(node.kind, PrintAll(graph, guard, node.parts).0.value);
  }

  /** A mark is made by an attribute that is printed after it, or by the call itself. */
  lemma {:induction false} PrintMarks(graph: Graph, guard: Guard, i: nat, k: nat)
    requires Valid(graph) && i < |graph| && k in guard && !guard[k] && Print(graph, guard, i).1[k]
    ensures k == i || exists u :: 0 <= u < |graph| && u !in guard && k in graph[u].parts
    decreases Unguarded(graph, guard), 0
  {
    if i !in guard && !graph[i].kind.Unsupported? {
      assert i in Unguarded(graph, guard) && i !in Unguarded(graph, guard[i := false]);
      PrintNodeMarks(graph, guard[i := false], i, k);
      if !(k in graph[i].parts) {
        var u :| 0 <= u < |graph| && u !in guard[i := false] && k in graph[u].parts;
        assert u !in guard;
      }
    }
  }

  lemma {:induction false} PrintNodeMarks(graph: Graph, guard: Guard, i: nat, k: nat)
    requires Valid(graph) && i < |graph| && !graph[i].kind.Unsupported? && k in guard && !guard[k]
    requires PrintNode(graph, guard, i).1[k]
    ensures k in graph[i].parts || exists u :: 0 <= u < |graph| && u !in guard && k in graph[u].parts
    decreases Unguarded(graph, guard), |graph[i].parts| + 2
  {
    assert ProperNode(graph, i);
    if Through(graph, i) {
      PrintMarks(graph, guard, graph[i].parts[0], k);
    } else {
      PrintAllMarks(graph, guard, graph[i].parts, k);
    }
  }

  lemma {:induction false} PrintAllMarks(graph: Graph, guard: Guard, parts: seq<nat>, k: nat)
    requires Valid(graph) && (forall j | 0 <= j < |parts| :: parts[j] < |graph|) && k in guard && !guard[k]
    requires PrintAll(graph, guard, parts).1[k]
    ensures k in parts || exists u :: 0 <= u < |graph| && u !in guard && k in graph[u].parts
    decreases Unguarded(graph, guard), |parts| + 1
  {
    if parts != [] {
      var (first, between) := Print(graph, guard, parts[0]);
      assert between.Keys == guard.Keys || Unguarded(graph, between) <= Unguarded(graph, guard);
      if between[k] {
        PrintMarks(graph, guard, parts[0], k);
      } else if first.Ok? {
        PrintAllMarks(graph, between, parts[1..], k);
        if !(k in parts[1..]) {
          var u :| 0 <= u < |graph| && u !in between && k in graph[u].parts;
          assert u !in guard;
        }
      }
    }
  }

  /** What only one alias or wrapper stands for gets no identifier of its own inside it. */
  lemma {:induction false} SoleTargetIsBare(graph: Graph, guard: Guard, p: nat)
    requires Valid(graph) && SoleTargets(graph) && p < |graph| && Through(graph, p) && p in guard
    requires Print(graph, guard, graph[p].parts[0]).0.Ok?
    ensures Print(graph, guard, graph[p].parts[0]).0.value.id.None?
    decreases Unguarded(graph, guard)
  {
    var c := graph[p].parts[0];
    if c !in guard {
      assert c in Unguarded(graph, guard) && c !in Unguarded(graph, guard[c := false]);
      var (result, inside) := PrintNode(graph, guard[c := false], c);
      if inside[c] {
        PrintNodeMarks(graph, guard[c := false], c, c);
      }
      if Through(graph, c) {
        SoleTargetIsBare(graph, guard[c := false], c);
      } else {
        FreshAtNode(graph, guard[c := false], c);
      }
    }
  }

  lemma TameIsNeverReplaced(graph: Graph, root: nat)
    requires Valid(graph) && root < |graph| && TameAliases(graph, root)
    ensures NeverReplaced(graph) && OneWayToAliases(graph, root)
  {
    forall guard: Guard, i: nat | i < |graph| && i !in guard && !graph[i].kind.Unsupported?
      ensures Replaced(graph, guard, i) == {}
    {
      var (result, inside) := PrintNode(graph, guard[i := false], i);
      if result.Ok? && result.value.id.Some? {
        if !Through(graph, i) {
          FreshAtNode(graph, guard[i := false], i);
        } else if SoleTargets(graph) {
          SoleTargetIsBare(graph, guard[i := false], i);
        } else {
          IdentifierIsOwn(graph, guard[i := false], graph[i].parts[0]);
        }
      }
    }
  }

  // ----- The condition --------------------------------------------------------------------------

  /** Without aliases, or when each can be reached in one way only and shares what it stands for with nothing,
      nothing is lost. */
  lemma TameAliasesLoseNothing(graph: Graph, root: nat)
    requires Valid(graph) && root < |graph| && TameAliases(graph, root)
    ensures Lost(graph, {}, map[], root) == {}
  {
    TameIsNeverReplaced(graph, root);
    assert Way(graph, root, {}, [], root) && Along(graph, root, []) == {} + {root};
    PrintLosesNothing(graph, root, {}, map[], [], root);
  }

  /** Then the references and the identifiers are the same names: none dangles, and none is there for nothing. */
  lemma ReferencesAreIdentified(graph: Graph, i: nat, x: string)
    requires Valid(graph) && i < |graph| && TameAliases(graph, i) && Print(graph, map[], i).0.Ok?
    ensures var schema := Print(graph, map[], i).0.value;
            Refers(schema, x) <==> Identifies(schema, x)
  {
    TameAliasesLoseNothing(graph, i);
    DanglesIffLost(graph, i, x);
  }

  lemma NoWayBack(graph: Graph, way: seq<nat>)
    requires Valid(graph) && |graph| == 2 && graph[1].parts == [0] && way != []
    ensures !Way(graph, 1, {0}, way, 1)
  {
    assert ProperNode(graph, 0);
    assert !Way(graph, 0, {0} + {1}, way[1..], 1);
  }

  /** `type Tree = Sequence[Tree]` is an example: its references have identifiers. */
  lemma SequenceOfItselfIsTame()
    ensures var graph := [Node(Sequence, "Sequence", [1]), Node(Alias, "forest.Tree", [0])];
            Valid(graph) && TameAliases(graph, 0)
  {
    var graph := [Node(Sequence, "Sequence", [1]), Node(Alias, "forest.Tree", [0])];
    assert ProperNode(graph, 0) && ProperNode(graph, 1);
    forall w: seq<nat> | Way(graph, 0, {}, w, 1) ensures w == [0] {
      assert {} + {0} == {0};
      assert w != [] && Way(graph, 1, {0}, w[1..], 1);
      if w[1..] != [] {
        NoWayBack(graph, w[1..]);
      }
      assert w == [w[0]] + w[1..];
    }
    assert OneWay(graph, 0, 1);
  }
}
