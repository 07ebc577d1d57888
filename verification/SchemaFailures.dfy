/**
Graphs whose printed schemas do not mean what the graphs mean.
*/
module SchemaFailures {
  import opened Wrappers
  import opened Specification
  import opened SchemaTerms
  import opened References
  import opened AliasReferences
  import opened SchemaMeaning

  // ----- Where it fails -------------------------------------------------------------------------

  lemma PrintsLink(graph: Graph, guard: Guard, i: nat, name: string)
    requires Valid(graph) && i < |graph| && i in guard && !graph[i].kind.Validable? && name == "#" + graph[i].name
    ensures Print(graph, guard, i) == (Ok(Schema(None, Reference(name), [])), guard[i := true])
  {
  }

  lemma PrintsOne(graph: Graph, guard: Guard, part: nat, printed: Printed<Schema>)
    requires Valid(graph) && part < |graph| && Print(graph, guard, part) == printed && printed.0.Ok?
    ensures PrintAll(graph, guard, [part]) == (Ok([printed.0.value]), printed.1)
  {
    var none: seq<nat> := [];
    assert [part][1..] == none && [part][0] == part;
    assert PrintAll(graph, printed.1, none) == (Ok([]), printed.1);
    assert [printed.0.value] + [] == [printed.0.value];
  }

  lemma PrintsTwo(graph: Graph, guard: Guard, a: nat, b: nat, first: Printed<Schema>, second: Printed<Schema>)
    requires Valid(graph) && a < |graph| && b < |graph| && first.0.Ok? && second.0.Ok?
    requires Print(graph, guard, a) == first && Print(graph, first.1, b) == second
    ensures PrintAll(graph, guard, [a, b]) == (Ok([first.0.value, second.0.value]), second.1)
  {
    assert [a, b][1..] == [b];
    PrintsOne(graph, first.1, b, second);
    assert [first.0.value] + [second.0.value] == [first.0.value, second.0.value];
  }

  /** Printing a structure, from what printing its parts gave. */
  lemma Prints(graph: Graph, guard: Guard, i: nat, schemas: seq<Schema>, inside: Guard)
    requires Valid(graph) && i < |graph| && i !in guard
    requires !graph[i].kind.Unsupported? && !graph[i].kind.Validable? && !graph[i].kind.Alias?
    requires ProperNode(graph, i) && Combine(graph[i].kind, schemas).Ok?
    requires PrintAll(graph, guard[i := false], graph[i].parts) == (Ok(schemas), inside)
    ensures i in inside
    ensures var combined := Combine(graph[i].kind, schemas).value;
            Print(graph, guard, i) ==
            (Ok(if inside[i] then WithIdentifier(combined, graph[i].name) else combined),
             if inside[i] then inside else Dropped(inside, i))
  {
  }

  /** A pair of recursive dictionary types with the same name. */
  function TwoItems(): (graph: Graph)
    ensures Valid(graph) && |graph| == 3 && Grounded(graph)
  {
    var graph := [Node(TupleOf, "tuple", [1, 2]),
                  Node(TypedDict(["next"], [true]), "Item", [1]),
                  Node(TypedDict(["previous"], [true]), "Item", [2])];
    assert ProperNode(graph, 0) && ProperNode(graph, 1) && ProperNode(graph, 2);
    graph
  }

  function ItemSchema(key: string): Schema {
    Schema(Some("#Item"), Properties([key], [key]), [Schema(None, Reference("#Item"), [])])
  }

  lemma ItemIsPrinted(guard: Guard, i: nat, key: string)
    requires i < 3 && TwoItems()[i] == Node(TypedDict([key], [true]), "Item", [i]) && i !in guard
    ensures Print(TwoItems(), guard, i) == (Ok(ItemSchema(key)), guard[i := true])
  {
    var graph := TwoItems();
    assert "#" + "Item" == "#Item";
    assert guard[i := false][i := true] == guard[i := true];
    PrintsLink(graph, guard[i := false], i, "#Item");
    PrintsOne(graph, guard[i := false], i, Print(graph, guard[i := false], i));
    assert RequiredNames([key], [true]) == [key] by {
      assert RequiredNames([key][..0], [true][..0]) == [];
    }
    Prints(graph, guard, i, [Schema(None, Reference("#Item"), [])], guard[i := true]);
  }

  function ItemDemand(key: string): Demand {
    ARecord([(key, true)])
  }

  function PairSchema(): Schema {
    Schema(None, PrefixItems, [ItemSchema("next"), ItemSchema("previous")])
  }

  lemma PairIsPrinted()
    ensures Print(TwoItems(), map[], 0).0 == Ok(PairSchema())
  {
    var graph, first, second := TwoItems(), ItemSchema("next"), ItemSchema("previous");
    var start: Guard := map[0 := false];
    ItemIsPrinted(start, 1, "next");
    ItemIsPrinted(start[1 := true], 2, "previous");
    PrintsTwo(graph, start, 1, 2, (Ok(first), start[1 := true]), (Ok(second), start[1 := true][2 := true]));
    var none: Guard := map[];
    assert none[0 := false] == start;
    Prints(graph, none, 0, [first, second], start[1 := true][2 := true]);
  }

  /** What the first part of the second part demands. */
  function InnerDemand(tree: Tree): Demand {
    if tree.Branch? && |tree.subtrees| == 2 && tree.subtrees[1].Branch? && |tree.subtrees[1].subtrees| == 1
       && tree.subtrees[1].subtrees[0].Branch?
    then tree.subtrees[1].subtrees[0].demand else NoDemand
  }

  lemma SecondItemInGraph()
    ensures InnerDemand(AttributeTree(TwoItems(), 0, 3)) == ItemDemand("previous")
  {
    assert AttributeTree(TwoItems(), 2, 1).demand == ItemDemand("previous");
    assert AttributeTree(TwoItems(), 2, 2).subtrees == [AttributeTree(TwoItems(), 2, 1)];
    assert AttributeTree(TwoItems(), 0, 3).subtrees[1] == AttributeTree(TwoItems(), 2, 2);
  }

  lemma SecondItemInSchema()
    ensures InnerDemand(SchemaTree(PairSchema(), PairSchema(), 3)) == ItemDemand("next")
  {
    var schema := PairSchema();
    var link := Schema(None, Reference("#Item"), []);
    assert Find(schema, "#Item") == Some(ItemSchema("next"));
    assert SchemaTree(schema, link, 1).demand == ItemDemand("next");
    assert SchemaTree(schema, ItemSchema("previous"), 2).subtrees == [SchemaTree(schema, link, 1)];
    assert SchemaTree(schema, schema, 3).subtrees[1] == SchemaTree(schema, ItemSchema("previous"), 2);
  }

  lemma ItemsDiffer()
    ensures ItemDemand("next") != ItemDemand("previous")
  {
    assert ["next"][0][0] != ["previous"][0][0];
  }

  /** Both references lead to the first of two types of the same name. */
  lemma SameNamesAreConfused()
    ensures TameAliases(TwoItems(), 0) && Print(TwoItems(), map[], 0).0 == Ok(PairSchema())
    ensures !Describes(TwoItems(), PairSchema(), PairSchema(), 0)
  {
    PairIsPrinted();
    TreesDiffer();
  }

  lemma TreesDiffer()
    ensures !Describes(TwoItems(), PairSchema(), PairSchema(), 0)
  {
    SecondItemInGraph();
    SecondItemInSchema();
    ItemsDiffer();
    var depth: nat := 3;
    assert SchemaTree(PairSchema(), PairSchema(), depth) != AttributeTree(TwoItems(), 0, depth);
  }

  /** `type Tree = Mapping[str, Tree] | Sequence[Tree]` */
  function Trees(): (graph: Graph)
    ensures Valid(graph) && |graph| == 4
  {
    var graph := [Node(Union, "Mapping|Sequence", [1, 2]),
                  Node(Mapping, "Mapping", [3]),
                  Node(Sequence, "Sequence", [3]),
                  Node(Alias, "forest.Tree", [0])];
    assert ProperNode(graph, 0) && ProperNode(graph, 1) && ProperNode(graph, 2) && ProperNode(graph, 3);
    graph
  }

  /** The placeholder leads to the union, which is being printed. */
  lemma PlaceholderInMapping(guard: Guard)
    requires guard == map[0 := false]
    ensures Print(Trees(), guard, 1) ==
            (Ok(Schema(None, AdditionalProperties, [Schema(None, Reference("#Mapping|Sequence"), [])])),
             map[0 := true, 3 := false])
  {
    var graph, link := Trees(), Schema(None, Reference("#Mapping|Sequence"), []);
    var inside: Guard := map[0 := true, 1 := false, 3 := false];
    assert "#" + "Mapping|Sequence" == "#Mapping|Sequence";
    PrintsLink(graph, guard[1 := false][3 := false], 0, "#Mapping|Sequence");
    assert guard[1 := false][3 := false][0 := true] == inside;
    assert PrintNode(graph, guard[1 := false][3 := false], 3) == (Ok(link), inside);
    PrintsOne(graph, guard[1 := false], 3, (Ok(link), inside));
    var after: Guard := Dropped(inside, 1);
    assert after == map[0 := true, 3 := false];
    assert PrintAll(graph, guard[1 := false], graph[1].parts) == (Ok([link]), inside);
    Prints(graph, guard, 1, [link], inside);
    assert Print(graph, guard, 1).1 == after;
    assert Print(graph, guard, 1).0 == Ok(Schema(None, AdditionalProperties, [link]));
  }

  /** Later the placeholder itself is referred to. */
  lemma PlaceholderInSequence(guard: Guard)
    requires guard == map[0 := true, 3 := false]
    ensures Print(Trees(), guard, 2) ==
            (Ok(Schema(None, Items, [Schema(None, Reference("#forest.Tree"), [])])), map[0 := true, 3 := true])
  {
    var graph, link := Trees(), Schema(None, Reference("#forest.Tree"), []);
    var inside := guard[2 := false][3 := true];
    assert "#" + "forest.Tree" == "#forest.Tree";
    PrintsLink(graph, guard[2 := false], 3, "#forest.Tree");
    PrintsOne(graph, guard[2 := false], 3, (Ok(link), inside));
    assert Dropped(inside, 2) == map[0 := true, 3 := true];
    Prints(graph, guard, 2, [link], inside);
  }

  function TreeSchema(): Schema {
    Schema(Some("#Mapping|Sequence"), OneOf,
           [Schema(None, AdditionalProperties, [Schema(None, Reference("#Mapping|Sequence"), [])]),
            Schema(None, Items, [Schema(None, Reference("#forest.Tree"), [])])])
  }

  lemma AlternativesArePrinted(start: Guard, end: Guard)
    requires start == map[0 := false] && end == map[0 := true, 3 := true]
    ensures PrintAll(Trees(), start, [1, 2]) == (Ok(TreeSchema().parts), end)
  {
    var middle: Guard := map[0 := true, 3 := false];
    PlaceholderInMapping(start);
    PlaceholderInSequence(middle);
    PrintsTwo(Trees(), start, 1, 2, (Ok(TreeSchema().parts[0]), middle), (Ok(TreeSchema().parts[1]), end));
  }

  lemma AlternativesAreCombined()
    ensures Combine(Trees()[0].kind, TreeSchema().parts) == Ok(TreeSchema().(id := None))
    ensures ProperNode(Trees(), 0) && Trees()[0].kind == Union && Trees()[0].parts == [1, 2]
  {
    NotCompressed(TreeSchema().parts[0], TreeSchema().parts[1]);
  }

  lemma TreesAreIdentified()
    ensures WithIdentifier(TreeSchema().(id := None), Trees()[0].name) == TreeSchema()
  {
    assert "#" + "Mapping|Sequence" == "#Mapping|Sequence";
  }

  lemma TreesArePrinted()
    ensures Print(Trees(), map[], 0).0 == Ok(TreeSchema())
  {
    var start: Guard, end: Guard, none: Guard := map[0 := false], map[0 := true, 3 := true], map[];
    AlternativesAreCombined();
    TreesAreIdentified();
    AlternativesArePrinted(start, end);
    assert none[0 := false] == start;
    Prints(Trees(), none, 0, TreeSchema().parts, end);
  }

  lemma NotCompressed(some: Schema, more: Schema)
    requires !Compressible(some)
    ensures UnionSchema([some, more]) == Schema(None, OneOf, [some, more])
  {
    CompressedIsShorter([some, more]);
    assert [some, more][0] == some;
  }

  lemma ReferenceWithoutIdentifier()
    ensures Refers(TreeSchema(), "#forest.Tree") && !Identifies(TreeSchema(), "#forest.Tree")
  {
    var some, more := TreeSchema().parts[0], TreeSchema().parts[1];
    var toUnion, toTree := some.parts[0], more.parts[0];
    assert Refers(toTree, "#forest.Tree") && Refers(more, "#forest.Tree");
    assert !Identifies(toTree, "#forest.Tree") && !Identifies(toUnion, "#forest.Tree");
    assert !Identifies(some, "#forest.Tree") && !Identifies(more, "#forest.Tree");
    assert "#Mapping|Sequence"[1] != "#forest.Tree"[1];
  }

  /** The placeholder inside the mapping is printed before it is known to be referenced, so the reference
      inside the sequence has nothing to refer to. */
  lemma AliasReferenceDangles()
    ensures Print(Trees(), map[], 0).0 == Ok(TreeSchema())
    ensures Refers(TreeSchema(), "#forest.Tree") && !Identifies(TreeSchema(), "#forest.Tree")
    ensures "#forest.Tree" in Lost(Trees(), {}, map[], 0)
  {
    TreesArePrinted();
    ReferenceWithoutIdentifier();
    DanglesIffLost(Trees(), 0, "#forest.Tree");
  }
}
