/**
Which references of a printed schema have their identifier in it, for every graph of attributes.
*/
module References {
  import opened Wrappers
  import opened Specification

  ghost predicate AnyRefers(schemas: seq<Schema>, x: string) {
    exists j :: 0 <= j < |schemas| && Refers(schemas[j], x)
  }

  ghost predicate AnyIdentifies(schemas: seq<Schema>, x: string) {
    exists j :: 0 <= j < |schemas| && Identifies(schemas[j], x)
  }

  ghost predicate Within(graph: Graph, guard: Guard) {
    forall k <- guard :: k < |graph|
  }

  // ----- What gets lost -------------------------------------------------------------------------

  /** The identifiers that a printed schema refers to but may lack: of aliases that were left without a mark
      and are met again later, outside themselves, and of what an alias inside is printed as, when the alias
      puts its own identifier in the place.  `open` are the attributes being printed around. */
  ghost function Lost(graph: Graph, open: set<nat>, guard: Guard, i: nat): set<string>
    requires Valid(graph) && i < |graph|
    decreases Unguarded(graph, guard), 0
  {
    if i in guard then if !guard[i] && i !in open then {Identifier(graph, i)} else {}
    else if graph[i].kind.Unsupported? then {}
    else
      assert i in Unguarded(graph, guard) && i !in Unguarded(graph, guard[i := false]);
      LostInside(graph, open + {i}, guard[i := false], i) + Replaced(graph, guard, i)
  }

  /** The identifier that an attribute got inside, when another one replaces it. */
  ghost function Replaced(graph: Graph, guard: Guard, i: nat): set<string>
    requires Valid(graph) && i < |graph| && i !in guard && !graph[i].kind.Unsupported?
  {
    var (result, inside) := PrintNode(graph, guard[i := false], i);
    if result.Ok? && inside[i] && result.value.id.Some? && result.value.id.value != Identifier(graph, i)
    then {result.value.id.value} else {}
  }

  ghost function LostInside(graph: Graph, open: set<nat>, guard: Guard, i: nat): set<string>
    requires Valid(graph) && i < |graph| && !graph[i].kind.Unsupported?
    decreases Unguarded(graph, guard), |graph[i].parts| + 2
  {
    assert ProperNode(graph, i);
    if graph[i].kind.Validable? || graph[i].kind.Alias? then Lost(graph, open, guard, graph[i].parts[0])
    else LostInParts(graph, open, guard, graph[i].parts)
  }

  ghost function LostInParts(graph: Graph, open: set<nat>, guard: Guard, parts: seq<nat>): set<string>
    requires Valid(graph) && forall j | 0 <= j < |parts| :: parts[j] < |graph|
    decreases Unguarded(graph, guard), |parts| + 1
  {
    if parts == [] then {}
    else
      var between := Print(graph, guard, parts[0]).1;
      assert between.Keys == guard.Keys || Unguarded(graph, between) <= Unguarded(graph, guard);
      Lost(graph, open, guard, parts[0]) + LostInParts(graph, open, between, parts[1..])
  }

  // ----- Accounts -------------------------------------------------------------------------------

  /** A marked attribute of the guard has the identifier. */
  ghost predicate MarkedAs(graph: Graph, guard: Guard, after: Guard, x: string)
    requires Valid(graph) && Within(graph, guard) && Keeps(guard, after)
  {
    exists k :: k in guard && Identifier(graph, k) == x && after[k]
  }

  /** Every reference has its identifier here, or is lost, or is to a marked attribute of the guard; whatever
      joins the guard with a mark is identified here or lost; whatever is newly marked is referred to here, and
      is lost unless it is open; and every identifier here is referred to here, as is everything lost. */
  ghost predicate Accounted(graph: Graph, open: set<nat>, guard: Guard, after: Guard, lost: set<string>,
                            schemas: seq<Schema>)
    requires Valid(graph) && Within(graph, guard) && Within(graph, after) && Keeps(guard, after)
  {
    && (forall x :: AnyRefers(schemas, x) ==>
          AnyIdentifies(schemas, x) || x in lost || MarkedAs(graph, guard, after, x))
    && (forall x :: AnyIdentifies(schemas, x) ==> AnyRefers(schemas, x))
    && (forall k <- after | k !in guard && after[k] ::
          AnyIdentifies(schemas, Identifier(graph, k)) || Identifier(graph, k) in lost)
    && (forall k <- guard | !guard[k] && after[k] ::
          AnyRefers(schemas, Identifier(graph, k)) && (k in open || Identifier(graph, k) in lost))
    && (forall x <- lost :: AnyRefers(schemas, x))
  }

  lemma {:induction false} AnyOfBoth(some: seq<Schema>, more: seq<Schema>, x: string)
    ensures AnyRefers(some + more, x) <==> AnyRefers(some, x) || AnyRefers(more, x)
    ensures AnyIdentifies(some + more, x) <==> AnyIdentifies(some, x) || AnyIdentifies(more, x)
  {
    var all := some + more;
    assert forall j | 0 <= j < |some| :: all[j] == some[j];
    assert forall j | 0 <= j < |more| :: all[|some| + j] == more[j];
  }

  lemma AccountedBoth(graph: Graph, open: set<nat>, guard: Guard, between: Guard, after: Guard,
                      lost: set<string>, later: set<string>, some: seq<Schema>, more: seq<Schema>)
    requires Valid(graph) && Within(graph, guard) && Within(graph, between) && Within(graph, after)
    requires Keeps(guard, between) && Keeps(between, after) && open <= guard.Keys
    requires Accounted(graph, open, guard, between, lost, some) && Accounted(graph, open, between, after, later, more)
    ensures Accounted(graph, open, guard, after, lost + later, some + more)
  {
    forall x
      ensures AnyRefers(some + more, x) <==> AnyRefers(some, x) || AnyRefers(more, x)
      ensures AnyIdentifies(some + more, x) <==> AnyIdentifies(some, x) || AnyIdentifies(more, x)
    {
      AnyOfBoth(some, more, x);
    }
    forall k | k in after && k !in guard && after[k]
      ensures AnyIdentifies(some + more, Identifier(graph, k)) || Identifier(graph, k) in lost + later
    {
      if k in between && !between[k] {
        assert Identifier(graph, k) in later;
      }
    }
    forall x | MarkedAs(graph, between, after, x)
      ensures MarkedAs(graph, guard, after, x) || AnyIdentifies(some + more, x) || x in lost + later
    {
      var k :| k in between && Identifier(graph, k) == x && after[k];
      assert k in guard || (k in after && k !in guard);
    }
    forall x | MarkedAs(graph, guard, between, x) ensures MarkedAs(graph, guard, after, x) {
      var k :| k in guard && Identifier(graph, k) == x && between[k];
      assert after[k];
    }
  }

  /** What a schema is made of accounts for it. */
  lemma OnlyItsParts(graph: Graph, open: set<nat>, guard: Guard, after: Guard, lost: set<string>, schema: Schema,
                     parts: seq<Schema>)
    requires Valid(graph) && Within(graph, guard) && Within(graph, after) && Keeps(guard, after)
    requires Accounted(graph, open, guard, after, lost, parts)
    requires schema.id.None? && !schema.keyword.Reference?
    requires schema.parts == parts
             || (schema.parts == [] && forall j | 0 <= j < |parts| :: Compressible(parts[j]) && parts[j].parts == [])
    ensures Accounted(graph, open, guard, after, lost, [schema])
  {
    forall x
      ensures AnyRefers([schema], x) <==> AnyRefers(parts, x)
      ensures AnyIdentifies([schema], x) <==> AnyIdentifies(parts, x)
    {
      assert [schema][0] == schema;
    }
  }

  /** An identifier takes the place of what was there. */
  lemma IdentifierEffect(schema: Schema, name: string, x: string)
    ensures var s := WithIdentifier(schema, name);
            && (AnyRefers([s], x) <==> AnyRefers([schema], x))
            && (AnyIdentifies([s], x) ==> AnyIdentifies([schema], x) || x == "#" + name)
            && (AnyIdentifies([schema], x) ==> AnyIdentifies([s], x) || schema.id == Some(x))
            && AnyIdentifies([s], "#" + name)
  {
    var s := WithIdentifier(schema, name);
    assert [s][0] == s && [schema][0] == schema;
    assert Refers(s, x) <==> Refers(schema, x);
    assert Identifies(schema, x) <==>
           schema.id == Some(x) || exists j :: 0 <= j < |schema.parts| && Identifies(schema.parts[j], x);
    assert Identifies(s, x) <==> x == "#" + name || exists j :: 0 <= j < |s.parts| && Identifies(s.parts[j], x);
    assert Identifies(s, "#" + name);
  }

  /** Leaving an attribute that was referred to: it is identified and kept. */
  lemma AccountedWhenKept(graph: Graph, open: set<nat>, guard: Guard, inside: Guard, lost: set<string>, i: nat,
                          schema: Schema)
    requires Valid(graph) && i < |graph| && i !in guard && Within(graph, guard) && Within(graph, inside)
    requires Keeps(guard[i := false], inside) && inside[i]
    requires Accounted(graph, open + {i}, guard[i := false], inside, lost, [schema])
    ensures Keeps(guard, inside)
    ensures var replaced :=
              if schema.id.Some? && schema.id.value != Identifier(graph, i) then {schema.id.value} else {};
            Accounted(graph, open, guard, inside, lost + replaced, [WithIdentifier(schema, TypeName(graph, i))])
  {
    var name := TypeName(graph, i);
    var s := WithIdentifier(schema, name);
    var replaced := if schema.id.Some? && schema.id.value != Identifier(graph, i) then {schema.id.value} else {};
    forall x
      ensures AnyRefers([s], x) <==> AnyRefers([schema], x)
      ensures AnyIdentifies([s], x) ==> AnyIdentifies([schema], x) || x == Identifier(graph, i)
      ensures AnyIdentifies([schema], x) ==> AnyIdentifies([s], x) || x in replaced
      ensures AnyIdentifies([s], Identifier(graph, i))
    {
      IdentifierEffect(schema, name, x);
    }
    assert AnyRefers([schema], Identifier(graph, i));
    forall x | x in replaced ensures AnyRefers([s], x) {
      assert [schema][0] == schema && AnyIdentifies([schema], x);
    }
    forall x | MarkedAs(graph, guard[i := false], inside, x)
      ensures x == Identifier(graph, i) || MarkedAs(graph, guard, inside, x)
    {
      var k :| k in guard[i := false] && Identifier(graph, k) == x && inside[k];
      assert k != i ==> k in guard;
    }
    KeptKeys(graph, open, guard, inside, lost, replaced, i, schema, s);
  }

  lemma KeptKeys(graph: Graph, open: set<nat>, guard: Guard, inside: Guard, lost: set<string>, replaced: set<string>,
                 i: nat,
                 schema: Schema, s: Schema)
    requires Valid(graph) && i < |graph| && i !in guard && Within(graph, guard) && Within(graph, inside)
    requires Keeps(guard[i := false], inside) && inside[i]
    requires Accounted(graph, open + {i}, guard[i := false], inside, lost, [schema])
    requires forall x :: AnyRefers([s], x) <==> AnyRefers([schema], x)
    requires forall x :: AnyIdentifies([schema], x) ==> AnyIdentifies([s], x) || x in replaced
    requires AnyIdentifies([s], Identifier(graph, i))
    ensures forall k <- inside | k !in guard && inside[k] ::
              AnyIdentifies([s], Identifier(graph, k)) || Identifier(graph, k) in lost + replaced
    ensures forall k <- guard | !guard[k] && inside[k] ::
              AnyRefers([s], Identifier(graph, k)) && (k in open || Identifier(graph, k) in lost + replaced)
  {
    forall k | k in guard && !guard[k] && inside[k]
      ensures AnyRefers([s], Identifier(graph, k)) && (k in open || Identifier(graph, k) in lost + replaced)
    {
      assert k in guard[i := false] && !guard[i := false][k];
    }
    forall k | k in inside && k !in guard && inside[k]
      ensures AnyIdentifies([s], Identifier(graph, k)) || Identifier(graph, k) in lost + replaced
    {
      assert k != i ==> k !in guard[i := false];
    }
  }

  /** Leaving an attribute that was not: it is forgotten, or stays without a mark. */
  lemma AccountedWhenUnmarked(graph: Graph, open: set<nat>, guard: Guard, inside: Guard, after: Guard,
                              lost: set<string>, i: nat,
                              schema: Schema)
    requires Valid(graph) && i < |graph| && i !in guard && Within(graph, guard) && Within(graph, inside)
    requires Keeps(guard[i := false], inside) && !inside[i] && (after == inside || after == Dropped(inside, i))
    requires Accounted(graph, open + {i}, guard[i := false], inside, lost, [schema])
    ensures Keeps(guard, after) && Within(graph, after) && Accounted(graph, open, guard, after, lost, [schema])
  {
    forall x | MarkedAs(graph, guard[i := false], inside, x) ensures MarkedAs(graph, guard, after, x) {
      var k :| k in guard[i := false] && Identifier(graph, k) == x && inside[k];
      assert k in guard && after[k];
    }
    forall k | k in guard && !guard[k] && after[k]
      ensures AnyRefers([schema], Identifier(graph, k)) && (k in open || Identifier(graph, k) in lost)
    {
      assert k in guard[i := false] && !guard[i := false][k];
    }
  }

  // ----- Every printed schema -------------------------------------------------------------------

  /** A schema that only names a type has no parts. */
  lemma {:induction false} TypeHasNoParts(graph: Graph, guard: Guard, i: nat)
    requires Valid(graph) && i < |graph| && Print(graph, guard, i).0.Ok?
    requires Print(graph, guard, i).0.value.keyword.Type?
    ensures Print(graph, guard, i).0.value.parts == []
    decreases Unguarded(graph, guard)
  {
    assert i in Unguarded(graph, guard) && i !in Unguarded(graph, guard[i := false]);
    assert ProperNode(graph, i);
    var node := graph[i];
    if node.kind.Validable? || node.kind.Alias? {
      TypeHasNoParts(graph, guard[i := false], node.parts[0]);
    } else {
      var (results, _) := PrintAll(graph, guard[i := false], node.parts);
      assert Combine(node.kind, results.value).Ok?;
      TypeIsSimple(node.kind);
    }
  }

  ghost predicate TypesHaveNoParts(schemas: seq<Schema>) {
    forall j | 0 <= j < |schemas| && schemas[j].keyword.Type? :: schemas[j].parts == []
  }

  lemma {:induction false} AllTypesHaveNoParts(graph: Graph, guard: Guard, parts: seq<nat>)
    requires Valid(graph) && (forall j | 0 <= j < |parts| :: parts[j] < |graph|) && PrintAll(graph, guard, parts).0.Ok?
    ensures TypesHaveNoParts(PrintAll(graph, guard, parts).0.value)
    decreases |parts|
  {
    if parts != [] {
      var (first, between) := Print(graph, guard, parts[0]);
      if first.value.keyword.Type? {
        TypeHasNoParts(graph, guard, parts[0]);
      }
      AllTypesHaveNoParts(graph, between, parts[1..]);
    }
  }

  /** The schema of a structure has no identifier yet and is no reference. */
  lemma CombinedIsFresh(kind: Kind, schemas: seq<Schema>)
    requires kind.TypedDict? ==> |kind.names| == |kind.required|
    requires TypesHaveNoParts(schemas) && Combine(kind, schemas).Ok?
    ensures var schema := Combine(kind, schemas).value;
            && schema.id.None? && !schema.keyword.Reference?
            && (schema.parts == schemas
                || (schema.parts == []
                    && forall j | 0 <= j < |schemas| :: Compressible(schemas[j]) && schemas[j].parts == []))
  {
    CompressedIsShorter(schemas);
  }

  lemma {:induction false} PrintAccounts(graph: Graph, open: set<nat>, guard: Guard, i: nat)
    requires Valid(graph) && i < |graph| && Within(graph, guard) && open <= guard.Keys
    requires Print(graph, guard, i).0.Ok?
    ensures var (result, after) := Print(graph, guard, i);
            Within(graph, after) && Accounted(graph, open, guard, after, Lost(graph, open, guard, i), [result.value])
    decreases Unguarded(graph, guard), 0
  {
    if i in guard {
      var s := Print(graph, guard, i).0.value;
      assert forall x :: AnyRefers([s], x) <==> Refers([s][0], x);
      assert forall x :: AnyIdentifies([s], x) <==> Identifies([s][0], x);
    } else {
      assert i in Unguarded(graph, guard) && i !in Unguarded(graph, guard[i := false]);
      var (result, inside) := PrintNode(graph, guard[i := false], i);
      var lost := LostInside(graph, open + {i}, guard[i := false], i);
      PrintNodeAccounts(graph, open + {i}, guard[i := false], i);
      if inside[i] {
        AccountedWhenKept(graph, open, guard, inside, lost, i, result.value);
      } else {
        AccountedWhenUnmarked(graph, open, guard, inside, Print(graph, guard, i).1, lost, i, result.value);
        assert lost + {} == lost;
      }
    }
  }

  lemma {:induction false} PrintNodeAccounts(graph: Graph, open: set<nat>, guard: Guard, i: nat)
    requires Valid(graph) && i < |graph| && !graph[i].kind.Unsupported? && Within(graph, guard) && open <= guard.Keys
    requires PrintNode(graph, guard, i).0.Ok?
    ensures var (result, after) := PrintNode(graph, guard, i);
            && Within(graph, after)
            && Accounted(graph, open, guard, after, LostInside(graph, open, guard, i), [result.value])
    decreases Unguarded(graph, guard), |graph[i].parts| + 2
  {
    var node := graph[i];
    assert ProperNode(graph, i);
    if node.kind.Validable? || node.kind.Alias? {
      PrintAccounts(graph, open, guard, node.parts[0]);
    } else {
      var (results, after) := PrintAll(graph, guard, node.parts);
      PrintAllAccounts(graph, open, guard, node.parts);
      AllTypesHaveNoParts(graph, guard, node.parts);
      CombinedIsFresh(node.kind, results.value);
      OnlyItsParts(graph, open, guard, after, LostInParts(graph, open, guard, node.parts),
                   Combine(node.kind, results.value).value, results.value);
    }
  }

  lemma {:induction false} PrintAllAccounts(graph: Graph, open: set<nat>, guard: Guard, parts: seq<nat>)
    requires Valid(graph) && Within(graph, guard) && open <= guard.Keys
    requires forall j | 0 <= j < |parts| :: parts[j] < |graph|
    requires PrintAll(graph, guard, parts).0.Ok?
    ensures var (results, after) := PrintAll(graph, guard, parts);
            && Within(graph, after)
            && Accounted(graph, open, guard, after, LostInParts(graph, open, guard, parts), results.value)
    decreases Unguarded(graph, guard), |parts| + 1
  {
    if parts != [] {
      var (first, between) := Print(graph, guard, parts[0]);
      PrintAccounts(graph, open, guard, parts[0]);
      assert between.Keys == guard.Keys || Unguarded(graph, between) <= Unguarded(graph, guard);
      var (rest, after) := PrintAll(graph, between, parts[1..]);
      PrintAllAccounts(graph, open, between, parts[1..]);
      AccountedBoth(graph, open, guard, between, after, Lost(graph, open, guard, parts[0]),
                    LostInParts(graph, open, between, parts[1..]), [first.value], rest.value);
    }
  }

  /** For every graph: what a printed schema identifies it refers to, and a reference in it has no identifier
      if and only if it is lost and no other attribute has given the schema the same identifier. */
  lemma DanglesIffLost(graph: Graph, i: nat, x: string)
    requires Valid(graph) && i < |graph| && Print(graph, map[], i).0.Ok?
    ensures var schema := Print(graph, map[], i).0.value;
            && (Identifies(schema, x) ==> Refers(schema, x))
            && (Refers(schema, x) && !Identifies(schema, x) <==>
                x in Lost(graph, {}, map[], i) && !Identifies(schema, x))
  {
    var schema := Print(graph, map[], i).0.value;
    PrintAccounts(graph, {}, map[], i);
    assert AnyRefers([schema], x) <==> Refers([schema][0], x);
    assert AnyIdentifies([schema], x) <==> Identifies([schema][0], x);
  }
}
