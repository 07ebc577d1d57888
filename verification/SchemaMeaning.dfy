/**
What a printed schema means: the possibly infinite tree that following its references gives.
*/
module SchemaMeaning {
  import opened Wrappers
  import opened Specification
  import opened SchemaTerms
  import opened References

  // ----- Through aliases and wrappers -----------------------------------------------------------

  /** The aliases and wrappers that start here end within so many steps. */
  ghost predicate Ends(graph: Graph, i: nat, steps: nat)
    requires Valid(graph) && i < |graph|
    decreases steps
  {
    Through(graph, i) ==> steps > 0 && Ends(graph, graph[i].parts[0], steps - 1)
  }

  /** No alias stands for itself alone. */
  ghost predicate Grounded(graph: Graph)
    requires Valid(graph)
  {
    forall i | 0 <= i < |graph| :: Ends(graph, i, |graph|)
  }

  ghost function CoreWithin(graph: Graph, i: nat, steps: nat): (core: nat)
    requires Valid(graph) && i < |graph| && Ends(graph, i, steps)
    ensures core < |graph| && !Through(graph, core)
    decreases steps
  {
    if Through(graph, i) then CoreWithin(graph, graph[i].parts[0], steps - 1) else i
  }

  ghost function HeightWithin(graph: Graph, i: nat, steps: nat): nat
    requires Valid(graph) && i < |graph| && Ends(graph, i, steps)
    decreases steps
  {
    if Through(graph, i) then HeightWithin(graph, graph[i].parts[0], steps - 1) + 1 else 0
  }

  lemma {:induction false} StepsAreIrrelevant(graph: Graph, i: nat, some: nat, more: nat)
    requires Valid(graph) && i < |graph| && Ends(graph, i, some) && Ends(graph, i, more)
    ensures CoreWithin(graph, i, some) == CoreWithin(graph, i, more)
    ensures HeightWithin(graph, i, some) == HeightWithin(graph, i, more)
    decreases some
  {
    if Through(graph, i) {
      StepsAreIrrelevant(graph, graph[i].parts[0], some - 1, more - 1);
    }
  }

  /** The structure that an attribute is, inside all aliases and wrappers. */
  ghost function Core(graph: Graph, i: nat): (core: nat)
    requires Valid(graph) && Grounded(graph) && i < |graph|
    ensures core < |graph| && !Through(graph, core) && ProperNode(graph, core)
  {
    CoreWithin(graph, i, |graph|)
  }

  /** How many aliases and wrappers are around it. */
  ghost function Height(graph: Graph, i: nat): nat
    requires Valid(graph) && Grounded(graph) && i < |graph|
  {
    HeightWithin(graph, i, |graph|)
  }

  lemma OneStep(graph: Graph, i: nat)
    requires Valid(graph) && Grounded(graph) && i < |graph| && Through(graph, i)
    ensures Core(graph, i) == Core(graph, graph[i].parts[0])
    ensures Height(graph, i) == Height(graph, graph[i].parts[0]) + 1
  {
    assert Ends(graph, i, |graph|) && Ends(graph, graph[i].parts[0], |graph|);
    StepsAreIrrelevant(graph, graph[i].parts[0], |graph| - 1, |graph|);
  }

  /** The parts of the structure. */
  ghost function PartsOf(graph: Graph, i: nat): (parts: seq<nat>)
    requires Valid(graph) && Grounded(graph) && i < |graph|
    ensures forall j | 0 <= j < |parts| :: parts[j] < |graph|
  {
    graph[Core(graph, i)].parts
  }

  // ----- The schema follows the graph -----------------------------------------------------------

  ghost function Marked(guard: Guard): set<nat> {
    set k | k in guard && guard[k]
  }

  /** One of the keys is the same structure and has the identifier. */
  ghost predicate Named(graph: Graph, keys: set<nat>, i: nat, x: string)
    requires Valid(graph) && Grounded(graph) && i < |graph|
  {
    exists c: nat :: c in keys && c < |graph| && Core(graph, c) == Core(graph, i) && Identifier(graph, c) == x
  }

  /** The name is that of the type of the kind. */
  ghost predicate IsType(kind: Kind, type_: string) {
    Simple(kind) && Reading(Type(type_)) == DemandOf(kind)
  }

  /** The schema describes the attribute, part by part, up to references to one of the keys. */
  ghost predicate Matches(graph: Graph, keys: set<nat>, s: Schema, i: nat)
    requires Valid(graph) && Grounded(graph) && i < |graph|
    decreases s
  {
    var core := graph[Core(graph, i)];
    && (s.id.Some? ==> Named(graph, keys, i, s.id.value) && !s.keyword.Reference?)
    && match s.keyword
       case Reference(name) => Named(graph, keys, i, name) && s.parts == []
       case TypeOf(types) =>
         && core.kind.Union? && |types| == |core.parts| && s.parts == []
         && (forall j | 0 <= j < |types| :: IsType(graph[Core(graph, core.parts[j])].kind, types[j]))
       case Nothing => false
       case _ =>
         && Reading(s.keyword) == DemandOf(core.kind) && |s.parts| == |core.parts|
         && (forall j | 0 <= j < |s.parts| :: Matches(graph, keys, s.parts[j], core.parts[j]))
  }

  ghost predicate AllMatch(graph: Graph, keys: set<nat>, schemas: seq<Schema>, parts: seq<nat>)
    requires Valid(graph) && Grounded(graph) && forall j | 0 <= j < |parts| :: parts[j] < |graph|
  {
    |schemas| == |parts| && forall j | 0 <= j < |parts| :: Matches(graph, keys, schemas[j], parts[j])
  }

  lemma {:induction false} MatchesMore(graph: Graph, keys: set<nat>, more: set<nat>, s: Schema, i: nat)
    requires Valid(graph) && Grounded(graph) && i < |graph| && Matches(graph, keys, s, i) && keys <= more
    ensures Matches(graph, more, s, i)
    decreases s
  {
    var core := graph[Core(graph, i)];
    if !s.keyword.TypeOf? && !s.keyword.Reference? {
      forall j | 0 <= j < |s.parts| ensures Matches(graph, more, s.parts[j], core.parts[j]) {
        MatchesMore(graph, keys, more, s.parts[j], core.parts[j]);
      }
    }
  }

  lemma MatchesSameCore(graph: Graph, keys: set<nat>, s: Schema, i: nat, k: nat)
    requires Valid(graph) && Grounded(graph) && i < |graph| && k < |graph| && Core(graph, i) == Core(graph, k)
    requires Matches(graph, keys, s, i)
    ensures Matches(graph, keys, s, k)
  {
  }

  lemma CombinedMatches(graph: Graph, keys: set<nat>, i: nat, schemas: seq<Schema>)
    requires Valid(graph) && Grounded(graph) && i < |graph| && !Through(graph, i) && ProperNode(graph, i)
    requires AllMatch(graph, keys, schemas, graph[i].parts) && Combine(graph[i].kind, schemas).Ok?
    ensures var s := Combine(graph[i].kind, schemas).value;
            Matches(graph, keys, s, i) && s.id.None? && !s.keyword.Reference?
  {
    assert Core(graph, i) == i;
    if graph[i].kind.Union? {
      UnionMatches(graph, keys, i, schemas);
    } else {
      StructureMatches(graph, keys, i, schemas);
    }
  }

  lemma StructureMatches(graph: Graph, keys: set<nat>, i: nat, schemas: seq<Schema>)
    requires Valid(graph) && Grounded(graph) && i < |graph| && ProperNode(graph, i) && Core(graph, i) == i
    requires !graph[i].kind.Union?
    requires AllMatch(graph, keys, schemas, graph[i].parts) && Combine(graph[i].kind, schemas).Ok?
    ensures var s := Combine(graph[i].kind, schemas).value;
            Matches(graph, keys, s, i) && s.id.None? && !s.keyword.Reference?
  {
    KeywordMeansKind(graph[i].kind);
  }

  lemma UnionMatches(graph: Graph, keys: set<nat>, i: nat, schemas: seq<Schema>)
    requires Valid(graph) && Grounded(graph) && i < |graph| && ProperNode(graph, i) && Core(graph, i) == i
    requires graph[i].kind.Union? && AllMatch(graph, keys, schemas, graph[i].parts)
    ensures var s := UnionSchema(schemas); Matches(graph, keys, s, i) && s.id.None? && !s.keyword.Reference?
  {
    CompressedIsShorter(schemas);
    var types := Compressed(schemas);
    if schemas != [] && |types| == |schemas| {
      forall j | 0 <= j < |types| ensures IsType(graph[Core(graph, graph[i].parts[j])].kind, types[j]) {
        TypeIsMatched(graph, keys, schemas[j], graph[i].parts[j]);
      }
    }
  }

  lemma TypeIsMatched(graph: Graph, keys: set<nat>, s: Schema, p: nat)
    requires Valid(graph) && Grounded(graph) && p < |graph| && Matches(graph, keys, s, p) && Compressible(s)
    ensures IsType(graph[Core(graph, p)].kind, s.keyword.type_)
  {
    DemandIsSimple(graph[Core(graph, p)].kind);
  }

  lemma DemandIsSimple(kind: Kind)
    requires kind.TypedDict? ==> |kind.names| == |kind.required|
    ensures DemandOf(kind) in {ANull, ABoolean, AnInteger, ANumber, AText} ==> Simple(kind)
  {
  }

  /** Printing met an open or kept attribute at once: only that one is marked, and nothing is entered but
      aliases without a mark. */
  ghost predicate OnlyMarks(graph: Graph, guard: Guard, after: Guard, i: nat)
    requires Valid(graph) && Grounded(graph) && i < |graph|
  {
    && (exists c: nat :: c < |graph| && c in guard && Height(graph, c) <= Height(graph, i)
                         && Core(graph, c) == Core(graph, i)
                         && forall k <- guard | k != c :: k in after && after[k] == guard[k])
    && forall k <- after | k !in guard :: !after[k]
  }

  lemma {:induction false} ReferenceOnlyMarks(graph: Graph, guard: Guard, i: nat)
    requires Valid(graph) && Grounded(graph) && i < |graph| && Print(graph, guard, i).0.Ok?
    requires Print(graph, guard, i).0.value.keyword.Reference?
    ensures OnlyMarks(graph, guard, Print(graph, guard, i).1, i)
    ensures Print(graph, guard, i).0.value.id.None?
    decreases Unguarded(graph, guard)
  {
    if i in guard {
      var after := Print(graph, guard, i).1;
      assert forall k <- guard | k != i :: k in after && after[k] == guard[k];
    } else {
      assert i in Unguarded(graph, guard) && i !in Unguarded(graph, guard[i := false]);
      assert ProperNode(graph, i);
      var (result, inside) := PrintNode(graph, guard[i := false], i);
      if !Through(graph, i) {
        AllTypesHaveNoParts(graph, guard[i := false], graph[i].parts);
        CombinedIsFresh(graph[i].kind, PrintAll(graph, guard[i := false], graph[i].parts).0.value);
      } else {
        ReferenceOnlyMarks(graph, guard[i := false], graph[i].parts[0]);
        PassedOn(graph, guard, inside, Print(graph, guard, i).1, i);
      }
    }
  }

  lemma PassedOn(graph: Graph, guard: Guard, inside: Guard, after: Guard, i: nat)
    requires Valid(graph) && Grounded(graph) && i < |graph| && i !in guard && Through(graph, i)
    requires OnlyMarks(graph, guard[i := false], inside, graph[i].parts[0]) && i in inside
    requires after == inside || after == Dropped(inside, i)
    ensures !inside[i] && OnlyMarks(graph, guard, after, i)
  {
    OneStep(graph, i);
    var c: nat :| c < |graph| && c in guard[i := false] && Height(graph, c) <= Height(graph, graph[i].parts[0])
                  && Core(graph, c) == Core(graph, graph[i].parts[0])
                  && forall k <- guard[i := false] | k != c :: k in inside && inside[k] == guard[i := false][k];
    assert c != i && c in guard && !inside[i];
    assert forall k <- guard | k != c :: k in after && after[k] == guard[k];
  }

  lemma {:induction false} PrintMatches(graph: Graph, guard: Guard, i: nat)
    requires Valid(graph) && Grounded(graph) && i < |graph| && Within(graph, guard) && Print(graph, guard, i).0.Ok?
    ensures var (result, after) := Print(graph, guard, i);
            Matches(graph, Marked(after), result.value, i)
    decreases Unguarded(graph, guard), 0
  {
    var (result, after) := Print(graph, guard, i);
    if i in guard {
      assert i in Marked(after);
    } else {
      assert i in Unguarded(graph, guard) && i !in Unguarded(graph, guard[i := false]);
      PrintNodeMatches(graph, guard[i := false], i);
      var inside := PrintNode(graph, guard[i := false], i).1;
      var bare := PrintNode(graph, guard[i := false], i).0.value;
      assert Marked(inside) == Marked(after);
      if inside[i] {
        assert i in Marked(after);
        if bare.keyword.Reference? {
          NoMarkInside(graph, guard, i);
        }
        WithIdentifierMatches(graph, Marked(after), bare, i);
      }
    }
  }

  lemma NoMarkInside(graph: Graph, guard: Guard, i: nat)
    requires Valid(graph) && Grounded(graph) && i < |graph| && i !in guard && !graph[i].kind.Unsupported?
    requires PrintNode(graph, guard[i := false], i).0.Ok?
    requires PrintNode(graph, guard[i := false], i).0.value.keyword.Reference?
    ensures !PrintNode(graph, guard[i := false], i).1[i]
  {
    assert ProperNode(graph, i);
    if Through(graph, i) {
      ReferenceOnlyMarks(graph, guard[i := false], graph[i].parts[0]);
      OneStep(graph, i);
    } else {
      AllTypesHaveNoParts(graph, guard[i := false], graph[i].parts);
      CombinedIsFresh(graph[i].kind, PrintAll(graph, guard[i := false], graph[i].parts).0.value);
    }
  }

  lemma WithIdentifierMatches(graph: Graph, keys: set<nat>, s: Schema, i: nat)
    requires Valid(graph) && Grounded(graph) && i < |graph| && Matches(graph, keys, s, i) && i in keys
    requires !s.keyword.Reference?
    ensures Matches(graph, keys, WithIdentifier(s, TypeName(graph, i)), i)
  {
  }

  lemma {:induction false} PrintNodeMatches(graph: Graph, guard: Guard, i: nat)
    requires Valid(graph) && Grounded(graph) && i < |graph| && !graph[i].kind.Unsupported? && Within(graph, guard)
    requires PrintNode(graph, guard, i).0.Ok?
    ensures var (result, after) := PrintNode(graph, guard, i);
            Matches(graph, Marked(after), result.value, i)
    decreases Unguarded(graph, guard), |graph[i].parts| + 2
  {
    var node := graph[i];
    assert ProperNode(graph, i);
    var after := PrintNode(graph, guard, i).1;
    if Through(graph, i) {
      PrintMatches(graph, guard, node.parts[0]);
      OneStep(graph, i);
      MatchesSameCore(graph, Marked(after), PrintNode(graph, guard, i).0.value, node.parts[0], i);
    } else {
      PrintAllMatches(graph, guard, node.parts);
      CombinedMatches(graph, Marked(after), i, PrintAll(graph, guard, node.parts).0.value);
    }
  }

  lemma {:induction false} PrintAllMatches(graph: Graph, guard: Guard, parts: seq<nat>)
    requires Valid(graph) && Grounded(graph) && Within(graph, guard)
    requires (forall j | 0 <= j < |parts| :: parts[j] < |graph|) && PrintAll(graph, guard, parts).0.Ok?
    ensures var (results, after) := PrintAll(graph, guard, parts);
            AllMatch(graph, Marked(after), results.value, parts)
    decreases Unguarded(graph, guard), |parts| + 1
  {
    if parts != [] {
      PrintMatches(graph, guard, parts[0]);
      var (first, between) := Print(graph, guard, parts[0]);
      assert between.Keys == guard.Keys || Unguarded(graph, between) <= Unguarded(graph, guard);
      PrintStaysWithin(graph, guard, parts[0]);
      PrintAllMatches(graph, between, parts[1..]);
      var after := PrintAll(graph, between, parts[1..]).1;
      MatchesMore(graph, Marked(between), Marked(after), first.value, parts[0]);
    }
  }

  lemma PrintStaysWithin(graph: Graph, guard: Guard, i: nat)
    requires Valid(graph) && i < |graph| && Within(graph, guard) && Print(graph, guard, i).0.Ok?
    ensures Within(graph, Print(graph, guard, i).1)
  {
    PrintAccounts(graph, {}, guard, i);
  }

  // ----- Trees ----------------------------------------------------------------------------------

  /** The possibly infinite tree of an attribute, down to some depth. */
  datatype Tree = Cut | Dangling | Branch(demand: Demand, subtrees: seq<Tree>)

  ghost function AttributeTree(graph: Graph, i: nat, depth: nat): Tree
    requires Valid(graph) && Grounded(graph) && i < |graph|
    decreases depth
  {
    if depth == 0 then Cut
    else
      var core := graph[Core(graph, i)];
      Branch(DemandOf(core.kind),
             seq(|core.parts|, j requires 0 <= j < |core.parts| => AttributeTree(graph, core.parts[j], depth - 1)))
  }

  /** The first schema with the `$id`. */
  function Find(schema: Schema, x: string): Option<Schema>
    decreases schema, |schema.parts| + 1
  {
    if schema.id == Some(x) then Some(schema) else FindAny(schema, schema.parts, x)
  }

  function FindAny(ghost whole: Schema, schemas: seq<Schema>, x: string): Option<Schema>
    requires |schemas| <= |whole.parts| && forall s <- schemas :: s in whole.parts
    decreases whole, |schemas|
  {
    if schemas == [] then None
    else
      assert schemas[0] in whole.parts && forall s <- schemas[1..] :: s in schemas;
      if Find(schemas[0], x).Some? then Find(schemas[0], x)
      else FindAny(whole, schemas[1..], x)
  }

  /** The same for a schema in a document: references are followed, and a list of type names stands for a
      choice between them. */
  ghost function SchemaTree(document: Schema, schema: Schema, depth: nat): Tree
    decreases depth, 1
  {
    if depth == 0 then Cut
    else if schema.keyword.Reference? then
      match Find(document, schema.keyword.name)
      case None => Dangling
      case Some(definition) => Expand(document, definition, depth)
    else Expand(document, schema, depth)
  }

  ghost function Expand(document: Schema, schema: Schema, depth: nat): Tree
    requires depth > 0
    decreases depth, 0
  {
    match schema.keyword
    case TypeOf(types) =>
      Branch(AChoice, seq(|types|, j requires 0 <= j < |types| =>
                            if depth == 1 then Cut else Branch(Reading(Type(types[j])), [])))
    case keyword =>
      Branch(Reading(keyword),
             seq(|schema.parts|, j requires 0 <= j < |schema.parts| =>
               SchemaTree(document, schema.parts[j], depth - 1)))
  }

  // ----- Positions ------------------------------------------------------------------------------

  /** The schema occurs in the document in a place that stands for the attribute. */
  ghost predicate Occurs(graph: Graph, document: Schema, root: nat, t: Schema, k: nat)
    requires Valid(graph) && Grounded(graph) && root < |graph|
    decreases document
  {
    || (t == document && k == root)
    || exists j :: 0 <= j < |document.parts| && j < |PartsOf(graph, root)|
                   && Occurs(graph, document.parts[j], PartsOf(graph, root)[j], t, k)
  }

  lemma {:induction false} OccursMatches(graph: Graph, keys: set<nat>, document: Schema, root: nat, t: Schema, k: nat)
    requires Valid(graph) && Grounded(graph) && root < |graph| && Matches(graph, keys, document, root)
    requires Occurs(graph, document, root, t, k)
    ensures k < |graph| && Matches(graph, keys, t, k)
    decreases document
  {
    if !(t == document && k == root) {
      var j :| 0 <= j < |document.parts| && j < |PartsOf(graph, root)|
               && Occurs(graph, document.parts[j], PartsOf(graph, root)[j], t, k);
      OccursMatches(graph, keys, document.parts[j], PartsOf(graph, root)[j], t, k);
    }
  }

  lemma {:induction false} PartOccurs(graph: Graph, document: Schema, root: nat, t: Schema, k: nat, j: nat)
    requires Valid(graph) && Grounded(graph) && root < |graph| && k < |graph| && Occurs(graph, document, root, t, k)
    requires j < |t.parts| && j < |PartsOf(graph, k)|
    ensures Occurs(graph, document, root, t.parts[j], PartsOf(graph, k)[j])
    decreases document
  {
    if t == document && k == root {
      assert Occurs(graph, document.parts[j], PartsOf(graph, root)[j], t.parts[j], PartsOf(graph, k)[j]);
    } else {
      var l :| 0 <= l < |document.parts| && l < |PartsOf(graph, root)|
               && Occurs(graph, document.parts[l], PartsOf(graph, root)[l], t, k);
      PartOccurs(graph, document.parts[l], PartsOf(graph, root)[l], t, k, j);
    }
  }

  /** What is found under an identifier occurs somewhere, with the identifier. */
  lemma {:induction false} FoundOccurs(graph: Graph, keys: set<nat>, document: Schema, root: nat,
                                       x: string) returns (m: nat)
    requires Valid(graph) && Grounded(graph) && root < |graph| && Matches(graph, keys, document, root)
    requires Find(document, x).Some?
    ensures m < |graph| && Occurs(graph, document, root, Find(document, x).value, m)
    ensures Find(document, x).value.id == Some(x)
    decreases document, |document.parts| + 1
  {
    if document.id == Some(x) {
      m := root;
    } else {
      var j;
      j, m := FoundAnyOccurs(graph, keys, document, root, 0, x);
    }
  }

  lemma {:induction false} FoundAnyOccurs(graph: Graph, keys: set<nat>, whole: Schema, root: nat, from: nat, x: string)
      returns (j: nat, m: nat)
    requires Valid(graph) && Grounded(graph) && root < |graph| && Matches(graph, keys, whole, root)
    requires from <= |whole.parts| && FindAny(whole, whole.parts[from..], x).Some?
    ensures j < |whole.parts| && j < |PartsOf(graph, root)| && m < |graph|
    ensures Occurs(graph, whole.parts[j], PartsOf(graph, root)[j], FindAny(whole, whole.parts[from..], x).value, m)
    ensures FindAny(whole, whole.parts[from..], x).value.id == Some(x)
    decreases whole, |whole.parts| - from
  {
    assert whole.parts[from..][0] == whole.parts[from] && whole.parts[from..][1..] == whole.parts[from + 1..];
    if Find(whole.parts[from], x).Some? {
      assert Matches(graph, keys, whole.parts[from], PartsOf(graph, root)[from]);
      j := from;
      m := FoundOccurs(graph, keys, whole.parts[from], PartsOf(graph, root)[from], x);
    } else {
      j, m := FoundAnyOccurs(graph, keys, whole, root, from + 1, x);
    }
  }

  // ----- When the trees agree -------------------------------------------------------------------

  ghost predicate SameTrees(graph: Graph, i: nat, k: nat)
    requires Valid(graph) && Grounded(graph) && i < |graph| && k < |graph|
  {
    forall depth: nat :: AttributeTree(graph, i, depth) == AttributeTree(graph, k, depth)
  }

  /** A definition is found that stands for an attribute with the same tree as the one referred to. */
  ghost predicate RightlyDefined(graph: Graph, document: Schema, root: nat, x: string, k: nat)
    requires Valid(graph) && Grounded(graph) && root < |graph| && k < |graph|
  {
    && Find(document, x).Some?
    && exists m: nat ::
         m < |graph| && Occurs(graph, document, root, Find(document, x).value, m) && SameTrees(graph, k, m)
  }

  /** That is so for every reference in the document. */
  ghost predicate ReferencesAgree(graph: Graph, document: Schema, root: nat)
    requires Valid(graph) && Grounded(graph) && root < |graph|
  {
    forall t: Schema, k: nat | k < |graph| && t.keyword.Reference? && Occurs(graph, document, root, t, k) ::
      RightlyDefined(graph, document, root, t.keyword.name, k)
  }

  lemma {:induction false} TreesAgree(graph: Graph, keys: set<nat>, document: Schema, root: nat, t: Schema, k: nat,
                                      depth: nat)
    requires Valid(graph) && Grounded(graph) && root < |graph| && k < |graph|
    requires Matches(graph, keys, document, root) && ReferencesAgree(graph, document, root)
    requires Occurs(graph, document, root, t, k)
    ensures SchemaTree(document, t, depth) == AttributeTree(graph, k, depth)
    decreases depth, 1
  {
    if depth > 0 {
      OccursMatches(graph, keys, document, root, t, k);
      if t.keyword.Reference? {
        assert RightlyDefined(graph, document, root, t.keyword.name, k);
        var definition := Find(document, t.keyword.name).value;
        var m: nat :| m < |graph| && Occurs(graph, document, root, definition, m) && SameTrees(graph, k, m);
        FoundIsNoReference(graph, keys, document, root, t.keyword.name);
        ExpandAgrees(graph, keys, document, root, definition, m, depth);
      } else {
        ExpandAgrees(graph, keys, document, root, t, k, depth);
      }
    }
  }

  lemma FoundIsNoReference(graph: Graph, keys: set<nat>, document: Schema, root: nat, x: string)
    requires Valid(graph) && Grounded(graph) && root < |graph| && Matches(graph, keys, document, root)
    requires Find(document, x).Some?
    ensures !Find(document, x).value.keyword.Reference?
  {
    var m := FoundOccurs(graph, keys, document, root, x);
    OccursMatches(graph, keys, document, root, Find(document, x).value, m);
  }

  lemma {:induction false} ExpandAgrees(graph: Graph, keys: set<nat>, document: Schema, root: nat, t: Schema, k: nat,
                                        depth: nat)
    requires Valid(graph) && Grounded(graph) && root < |graph| && k < |graph| && depth > 0
    requires Matches(graph, keys, document, root) && ReferencesAgree(graph, document, root)
    requires Occurs(graph, document, root, t, k) && !t.keyword.Reference?
    ensures Expand(document, t, depth) == AttributeTree(graph, k, depth)
    decreases depth, 0
  {
    OccursMatches(graph, keys, document, root, t, k);
    if t.keyword.TypeOf? {
      ListedTypesAgree(graph, keys, document, t, k, depth);
    } else {
      var less := depth - 1;
      MatchingParts(graph, keys, t, k);
      forall j | 0 <= j < |t.parts| ensures PartAgrees(graph, document, t, k, j, less) {
        PartOccurs(graph, document, root, t, k, j);
        TreesAgree(graph, keys, document, root, t.parts[j], PartsOf(graph, k)[j], less);
      }
      BranchesAgree(graph, keys, document, t, k, less);
    }
  }

  lemma MatchingParts(graph: Graph, keys: set<nat>, t: Schema, k: nat)
    requires Valid(graph) && Grounded(graph) && k < |graph| && Matches(graph, keys, t, k)
    requires !t.keyword.Reference? && !t.keyword.TypeOf?
    ensures |t.parts| == |PartsOf(graph, k)|
  {
  }

  ghost predicate PartAgrees(graph: Graph, document: Schema, t: Schema, k: nat, j: nat, depth: nat)
    requires Valid(graph) && Grounded(graph) && k < |graph| && j < |t.parts| == |PartsOf(graph, k)|
  {
    SchemaTree(document, t.parts[j], depth) == AttributeTree(graph, PartsOf(graph, k)[j], depth)
  }

  lemma BranchesAgree(graph: Graph, keys: set<nat>, document: Schema, t: Schema, k: nat, depth: nat)
    requires Valid(graph) && Grounded(graph) && k < |graph| && Matches(graph, keys, t, k)
    requires !t.keyword.Reference? && !t.keyword.TypeOf? && |t.parts| == |PartsOf(graph, k)|
    requires forall j | 0 <= j < |t.parts| :: PartAgrees(graph, document, t, k, j, depth)
    ensures Expand(document, t, depth + 1) == AttributeTree(graph, k, depth + 1)
  {
    forall j | 0 <= j < |t.parts|
      ensures SchemaTree(document, t.parts[j], depth) == AttributeTree(graph, PartsOf(graph, k)[j], depth)
    {
      assert PartAgrees(graph, document, t, k, j, depth);
    }
  }

  lemma ListedTypesAgree(graph: Graph, keys: set<nat>, document: Schema, t: Schema, k: nat, depth: nat)
    requires Valid(graph) && Grounded(graph) && k < |graph| && depth > 0 && Matches(graph, keys, t, k)
    requires t.keyword.TypeOf?
    ensures Expand(document, t, depth) == AttributeTree(graph, k, depth)
  {
    var parts, types := PartsOf(graph, k), t.keyword.types;
    forall j | 0 <= j < |types|
      ensures AttributeTree(graph, parts[j], depth - 1) ==
              if depth == 1 then Cut else Branch(Reading(Type(types[j])), [])
    {
      assert ProperNode(graph, Core(graph, parts[j]));
    }
  }

  ghost predicate Describes(graph: Graph, document: Schema, t: Schema, k: nat)
    requires Valid(graph) && Grounded(graph) && k < |graph|
  {
    forall depth: nat :: SchemaTree(document, t, depth) == AttributeTree(graph, k, depth)
  }

  /** When a schema describes an attribute its parts describe the parts. */
  lemma PartDescribes(graph: Graph, keys: set<nat>, document: Schema, t: Schema, k: nat, j: nat)
    requires Valid(graph) && Grounded(graph) && k < |graph| && Matches(graph, keys, t, k)
    requires Describes(graph, document, t, k)
    requires j < |t.parts| && j < |PartsOf(graph, k)|
    ensures Describes(graph, document, t.parts[j], PartsOf(graph, k)[j])
  {
    forall depth: nat
      ensures SchemaTree(document, t.parts[j], depth) == AttributeTree(graph, PartsOf(graph, k)[j], depth)
    {
      assert SchemaTree(document, t, depth + 1) == AttributeTree(graph, k, depth + 1);
      assert SchemaTree(document, t, depth + 1) == Expand(document, t, depth + 1);
      assert Expand(document, t, depth + 1).subtrees[j] == SchemaTree(document, t.parts[j], depth);
      assert AttributeTree(graph, k, depth + 1).subtrees[j] == AttributeTree(graph, PartsOf(graph, k)[j], depth);
    }
  }

  lemma {:induction false} PlaceDescribes(graph: Graph, keys: set<nat>, document: Schema, s: Schema, i: nat, t: Schema,
                                          k: nat)
    requires Valid(graph) && Grounded(graph) && i < |graph| && Matches(graph, keys, s, i)
    requires Describes(graph, document, s, i)
    requires Occurs(graph, s, i, t, k)
    ensures k < |graph| && Describes(graph, document, t, k)
    decreases s
  {
    if !(t == s && k == i) {
      var j :| 0 <= j < |s.parts| && j < |PartsOf(graph, i)| && Occurs(graph, s.parts[j], PartsOf(graph, i)[j], t, k);
      PartDescribes(graph, keys, document, s, i, j);
      PlaceDescribes(graph, keys, document, s.parts[j], PartsOf(graph, i)[j], t, k);
    }
  }

  lemma ReferenceIsRight(graph: Graph, keys: set<nat>, document: Schema, root: nat, t: Schema, k: nat)
    requires Valid(graph) && Grounded(graph) && root < |graph| && k < |graph| && Matches(graph, keys, document, root)
    requires Describes(graph, document, document, root) && t.keyword.Reference? && Occurs(graph, document, root, t, k)
    ensures RightlyDefined(graph, document, root, t.keyword.name, k)
  {
    var x := t.keyword.name;
    PlaceDescribes(graph, keys, document, document, root, t, k);
    assert SchemaTree(document, t, 1) == AttributeTree(graph, k, 1);
    assert Find(document, x).Some?;
    var definition := Find(document, x).value;
    var m := FoundOccurs(graph, keys, document, root, x);
    FoundIsNoReference(graph, keys, document, root, x);
    PlaceDescribes(graph, keys, document, document, root, definition, m);
    forall depth: nat ensures AttributeTree(graph, k, depth) == AttributeTree(graph, m, depth) {
      assert SchemaTree(document, t, depth) == AttributeTree(graph, k, depth);
      assert SchemaTree(document, definition, depth) == AttributeTree(graph, m, depth);
    }
  }

  /** For every graph: following the references of the finite schema gives the tree of the attribute to any
      depth, if and only if every reference has a definition and that stands for an attribute with the same
      tree as the one the reference stands for. */
  lemma SchemaDescribesGraphIff(graph: Graph, i: nat)
    requires Valid(graph) && Grounded(graph) && i < |graph| && Print(graph, map[], i).0.Ok?
    ensures var schema := Print(graph, map[], i).0.value;
            Describes(graph, schema, schema, i) <==> ReferencesAgree(graph, schema, i)
  {
    var (result, after) := Print(graph, map[], i);
    var schema, keys := result.value, Marked(after);
    PrintMatches(graph, map[], i);
    assert Occurs(graph, schema, i, schema, i);
    if ReferencesAgree(graph, schema, i) {
      forall depth: nat ensures SchemaTree(schema, schema, depth) == AttributeTree(graph, i, depth) {
        TreesAgree(graph, keys, schema, i, schema, i, depth);
      }
    }
    if Describes(graph, schema, schema, i) {
      forall t: Schema, k: nat | k < |graph| && t.keyword.Reference? && Occurs(graph, schema, i, t, k)
        ensures RightlyDefined(graph, schema, i, t.keyword.name, k)
      {
        ReferenceIsRight(graph, keys, schema, i, t, k);
      }
    }
  }
}
