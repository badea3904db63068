/**
 The dependency tree of a model class: the models reachable through its fields, unfolded along every
 path until a model repeats. Type annotations are given as data; the schema lists each model's fields.
 */
module DependencyTree {
  import opened Wrappers
  import opened Graphs

  datatype Annotation =
    | ModelType(model: string)
    | ListOf(item: Annotation)
    | DictOf(key: string, value: Annotation)
    | UnionOf(args: seq<Annotation>)
    | Annotated(inner: Annotation)
    | Other

  /** The shape of a field that holds models. */
  datatype Container =
    | Model(model: string)
    | List(items: Container)
    | Dict(keys: string, values: Container)
    | Union(options: seq<Container>)

  /** `skipped`: the field is marked as a reference or as implied. */
  datatype Field = Field(name: string, annotation: Annotation, external: Option<string>, skipped: bool)

  type Schema = map<string, seq<Field>>

  function ExtractContainer(a: Annotation): Option<Container> {
    match a
    case Annotated(inner) => (match inner case Annotated(_) => None case _ => ExtractContainer(inner))
    case ModelType(m) => Some(Model(m))
    case ListOf(item) =>
      var items := ExtractContainer(item);
      if items.Some? then Some(List(items.value)) else None
    case DictOf(key, value) =>
      var values := ExtractContainer(value);
      if values.Some? then Some(Dict(key, values.value)) else None
    case UnionOf(args) =>
      var models := CollectUnionOptions(args);
      if models != [] then Some(Union(models)) else None
    case Other => None
  }

  function CollectUnionOptions(args: seq<Annotation>): seq<Container> {
    if args == [] then []
    else
      var r := ExtractContainer(args[|args| - 1]);
      CollectUnionOptions(args[..|args| - 1]) + if r.Some? then [r.value] else []
  }

  function Unwrapped(a: Annotation): Annotation {
    if a.Annotated? then Unwrapped(a.inner) else a
  }

  function ContainerOf(f: Field): Option<Container> {
    if f.skipped then None else ExtractContainer(Unwrapped(f.annotation))
  }

  // ------------------------------------------------------------------ the field graph

  /** The models at the leaves of a container, in order. */
  function Leaves(info: Container): seq<string> {
    match info
    case Model(m) => [m]
    case List(items) => Leaves(items)
    case Dict(_, values) => Leaves(values)
    case Union(options) => LeavesOfAll(options)
  }

  function LeavesOfAll(options: seq<Container>): seq<string> {
    if options == [] then [] else LeavesOfAll(options[..|options| - 1]) + Leaves(options[|options| - 1])
  }

  function FieldLeaves(fields: seq<Field>): seq<string> {
    if fields == [] then []
    else
      var c := ContainerOf(fields[|fields| - 1]);
      FieldLeaves(fields[..|fields| - 1]) + if c.Some? then Leaves(c.value) else []
  }

  /** An edge from each model to the models that its followed fields mention. */
  function ModelGraph(schema: Schema): Graph<string> {
    map m | m in schema :: FieldLeaves(schema[m])
  }

  function FieldsOf(schema: Schema, m: string): seq<Field> {
    if m in schema then schema[m] else []
  }

  function Successors(g: Graph<string>, m: string): seq<string> {
    if m in g then g[m] else []
  }

  // ------------------------------------------------------------------ the tree

  datatype Deps = Cycle | Fields(entries: seq<Entry>)
  datatype Entry = Entry(name: string, external: Option<string>, structure: Structure)
  datatype Structure =
    | ModelNode(model: string, children: Deps)
    | ListNode(items: Structure)
    | DictNode(keys: string, values: Structure)
    | UnionNode(options: seq<Structure>)

  function ExtractDeps(schema: Schema, m: string, visited: set<string>): Deps
    decreases |schema.Keys - visited|, 0
  {
    if m in visited then Cycle
    else if m !in schema then Fields([])
    else
      RemainingShrinks(schema.Keys, visited, m);
      Fields(ExtractFields(schema, schema[m], visited + {m}))
  }

  function ExtractFields(schema: Schema, fields: seq<Field>, visited: set<string>): seq<Entry>
    decreases |schema.Keys - visited|, 2, fields
  {
    if fields == [] then []
    else
      var f := fields[|fields| - 1];
      var c := ContainerOf(f);
      ExtractFields(schema, fields[..|fields| - 1], visited)
      + if c.Some? then [Entry(f.name, f.external, Build(schema, c.value, visited))] else []
  }

  function Build(schema: Schema, info: Container, visited: set<string>): Structure
    decreases |schema.Keys - visited|, 1, info
  {
    match info
    case Model(m) => ModelNode(m, ExtractDeps(schema, m, visited))
    case List(items) => ListNode(Build(schema, items, visited))
    case Dict(keys, values) => DictNode(keys, Build(schema, values, visited))
    case Union(options) => UnionNode(BuildAll(schema, options, visited))
  }

  function BuildAll(schema: Schema, options: seq<Container>, visited: set<string>): (r: seq<Structure>)
    ensures |r| == |options|
    decreases |schema.Keys - visited|, 1, options
  {
    if options == [] then []
    else BuildAll(schema, options[..|options| - 1], visited) + [Build(schema, options[|options| - 1], visited)]
  }

  /** The recursive extraction with its shared, mutable set of models on the call stack. */
  class Extractor {
    const schema: Schema
    var visited: set<string>

    constructor (schema: Schema)
      ensures this.schema == schema && visited == {}
    {
      this.schema := schema;
      visited := {};
    }

    method Extract(m: string) returns (deps: Deps)
      modifies this
      ensures visited == old(visited)
      ensures deps == ExtractDeps(schema, m, old(visited))
      decreases |schema.Keys - visited|, 0
    {
      if m in visited {
        return Cycle;
      }
      ghost var before := visited;
      visited := visited + {m};
      var fields := FieldsOf(schema, m);
      if m in schema {
        RemainingShrinks(schema.Keys, before, m);
      }
      var entries: seq<Entry> := [];
      for i := 0 to |fields|
        invariant visited == before + {m}
        invariant entries == ExtractFields(schema, fields[..i], visited)
      {
        assert fields[..i + 1][..i] == fields[..i];
        var f := fields[i];
        var c := ExtractContainer(Unwrapped(f.annotation));
        if c.Some? && !f.skipped {
          var structure := BuildStructure(c.value);
          entries := entries + [Entry(f.name, f.external, structure)];
        }
      }
      assert fields[..|fields|] == fields;
      visited := visited - {m};
      assert visited == before;
      deps := Fields(entries);
    }

    method BuildStructure(info: Container) returns (s: Structure)
      modifies this
      ensures visited == old(visited)
      ensures s == Build(schema, info, old(visited))
      decreases |schema.Keys - visited|, 1, info
    {
      match info
      case Model(m) =>
        var children := Extract(m);
        s := ModelNode(m, children);
      case List(items) =>
        var inner := BuildStructure(items);
        s := ListNode(inner);
      case Dict(keys, values) =>
        var inner := BuildStructure(values);
        s := DictNode(keys, inner);
      case Union(options) =>
        var built: seq<Structure> := [];
        for i := 0 to |options|
          invariant visited == old(visited)
          invariant built == BuildAll(schema, options[..i], visited)
        {
          assert options[..i + 1][..i] == options[..i];
          var option := BuildStructure(options[i]);
          built := built + [option];
        }
        assert options[..|options|] == options;
        s := UnionNode(built);
    }
  }

  /** The memoised entry point: extraction with an empty call stack. */
  method ExtractModelDependencies(schema: Schema, m: string) returns (deps: Deps)
    ensures deps == ExtractDeps(schema, m, {})
  {
    var extractor := new Extractor(schema);
    deps := extractor.Extract(m);
  }

  // ------------------------------------------------------------------ what the tree contains

  type Node = (string, Deps)

  /** The model nodes directly below a structure, in order. */
  function Nodes(s: Structure): seq<Node> {
    match s
    case ModelNode(m, children) => [(m, children)]
    case ListNode(items) => Nodes(items)
    case DictNode(_, values) => Nodes(values)
    case UnionNode(options) => NodesOfAll(options)
  }

  function NodesOfAll(options: seq<Structure>): seq<Node> {
    if options == [] then [] else NodesOfAll(options[..|options| - 1]) + Nodes(options[|options| - 1])
  }

  function EntryNodes(entries: seq<Entry>): seq<Node> {
    if entries == [] then [] else EntryNodes(entries[..|entries| - 1]) + Nodes(entries[|entries| - 1].structure)
  }

  function Children(d: Deps): seq<Node> {
    if d.Cycle? then [] else EntryNodes(d.entries)
  }

  /** Following the models `path` down from `d` can lead to `end`. */
  ghost predicate LeadsTo(d: Deps, path: seq<string>, end: Deps)
    decreases |path|
  {
    if path == [] then d == end
    else exists child :: (path[0], child) in Children(d) && LeadsTo(child, path[1..], end)
  }

  function Expanded(schema: Schema, ms: seq<string>, visited: set<string>): seq<Node> {
    if ms == [] then []
    else Expanded(schema, ms[..|ms| - 1], visited) + [(ms[|ms| - 1], ExtractDeps(schema, ms[|ms| - 1], visited))]
  }

  lemma {:induction false} ExpandedConcat(schema: Schema, a: seq<string>, b: seq<string>, visited: set<string>)
    ensures Expanded(schema, a + b, visited) == Expanded(schema, a, visited) + Expanded(schema, b, visited)
  {
    if b == [] {
      assert a + b == a;
    } else {
      assert (a + b)[..|a + b| - 1] == a + b[..|b| - 1];
      ExpandedConcat(schema, a, b[..|b| - 1], visited);
    }
  }

  lemma {:induction false} ExpandedMembers(schema: Schema, ms: seq<string>, visited: set<string>, m: string, d: Deps)
    ensures (m, d) in Expanded(schema, ms, visited) <==> m in ms && d == ExtractDeps(schema, m, visited)
  {
    if ms != [] {
      ExpandedMembers(schema, ms[..|ms| - 1], visited, m, d);
      assert ms == ms[..|ms| - 1] + [ms[|ms| - 1]];
    }
  }

  lemma {:induction false} BuiltNodes(schema: Schema, info: Container, visited: set<string>)
    ensures Nodes(Build(schema, info, visited)) == Expanded(schema, Leaves(info), visited)
    decreases info
  {
    match info
    case Model(m) =>
      assert [m][..0] == [];
      assert Expanded(schema, [m], visited) == Expanded(schema, [], visited) + [(m, ExtractDeps(schema, m, visited))];
    case List(items) => BuiltNodes(schema, items, visited);
    case Dict(_, values) => BuiltNodes(schema, values, visited);
    case Union(options) => BuiltNodesOfAll(schema, options, visited);
  }

  lemma {:induction false} BuiltNodesOfAll(schema: Schema, options: seq<Container>, visited: set<string>)
    ensures NodesOfAll(BuildAll(schema, options, visited)) == Expanded(schema, LeavesOfAll(options), visited)
    decreases options
  {
    if options != [] {
      var n := |options| - 1;
      var built := BuildAll(schema, options, visited);
      assert built[..n] == BuildAll(schema, options[..n], visited);
      BuiltNodesOfAll(schema, options[..n], visited);
      BuiltNodes(schema, options[n], visited);
      ExpandedConcat(schema, LeavesOfAll(options[..n]), Leaves(options[n]), visited);
    }
  }

  lemma {:induction false} ExtractedNodes(schema: Schema, fields: seq<Field>, visited: set<string>)
    ensures EntryNodes(ExtractFields(schema, fields, visited)) == Expanded(schema, FieldLeaves(fields), visited)
    decreases |fields|
  {
    if fields != [] {
      var n := |fields| - 1;
      ExtractedNodes(schema, fields[..n], visited);
      var c := ContainerOf(fields[n]);
      if c.Some? {
        var entries := ExtractFields(schema, fields, visited);
        assert entries[..|entries| - 1] == ExtractFields(schema, fields[..n], visited);
        BuiltNodes(schema, c.value, visited);
        ExpandedConcat(schema, FieldLeaves(fields[..n]), Leaves(c.value), visited);
      } else {
        assert ExtractFields(schema, fields, visited) == ExtractFields(schema, fields[..n], visited);
        assert FieldLeaves(fields) == FieldLeaves(fields[..n]);
      }
    }
  }

  /** The children of an unfolded model are its successors, each expanded with the model on the stack. */
  lemma ChildrenAreSuccessors(schema: Schema, m: string, visited: set<string>, x: string, d: Deps)
    ensures (x, d) in Children(ExtractDeps(schema, m, visited)) <==>
              m !in visited && Edge(ModelGraph(schema), m, x) && d == ExtractDeps(schema, x, visited + {m})
  {
    if m !in visited && m in schema {
      ExtractedNodes(schema, schema[m], visited + {m});
      ExpandedMembers(schema, FieldLeaves(schema[m]), visited + {m}, x, d);
    }
  }

  /** `path` is a walk in the field graph on which only the last model may repeat or be in `visited`. */
  ghost predicate Unfolds(schema: Schema, path: seq<string>, visited: set<string>) {
    && IsWalk(ModelGraph(schema), path)
    && NoDuplicates(path[..|path| - 1])
    && forall i :: 0 <= i < |path| - 1 ==> path[i] !in visited
  }

  lemma UnfoldsTail(schema: Schema, m: string, path: seq<string>, visited: set<string>)
    requires path != [] && Unfolds(schema, [m] + path, visited)
    ensures m !in visited && Edge(ModelGraph(schema), m, path[0]) && Unfolds(schema, path, visited + {m})
  {
    var whole, n := [m] + path, |path|;
    assert whole[..n] == [m] + path[..n - 1];
    assert Edge(ModelGraph(schema), whole[0], whole[1]);
    forall i | 0 <= i < n - 1 ensures Edge(ModelGraph(schema), path[i], path[i + 1]) && path[i] !in visited + {m} {
      assert Edge(ModelGraph(schema), whole[i + 1], whole[i + 2]);
      assert whole[..n][0] != whole[..n][i + 1];
    }
    var front := path[..n - 1];
    forall i, j | 0 <= i < j < n - 1 ensures front[i] != front[j] {
      assert whole[..n][i + 1] != whole[..n][j + 1];
    }
  }

  lemma UnfoldsCons(schema: Schema, m: string, path: seq<string>, visited: set<string>)
    requires path != []
    requires m !in visited && Edge(ModelGraph(schema), m, path[0]) && Unfolds(schema, path, visited + {m})
    ensures Unfolds(schema, [m] + path, visited)
  {
    var whole, n := [m] + path, |path|;
    assert whole[..n] == [m] + path[..n - 1];
    forall i | 0 <= i < n ensures Edge(ModelGraph(schema), whole[i], whole[i + 1]) && whole[i] !in visited {
      if i > 0 {
        assert Edge(ModelGraph(schema), path[i - 1], path[i]);
      }
    }
    forall i, j | 0 <= i < j < n ensures whole[..n][i] != whole[..n][j] {
      assert path[j - 1] !in visited + {m};
      if i > 0 {
        assert path[..n - 1][i - 1] != path[..n - 1][j - 1];
      }
    }
  }

  lemma UnfoldsStep(schema: Schema, m: string, path: seq<string>, visited: set<string>)
    requires path != []
    ensures Unfolds(schema, [m] + path, visited) <==>
              m !in visited && Edge(ModelGraph(schema), m, path[0]) && Unfolds(schema, path, visited + {m})
  {
    if Unfolds(schema, [m] + path, visited) {
      UnfoldsTail(schema, m, path, visited);
    } else if m !in visited && Edge(ModelGraph(schema), m, path[0]) && Unfolds(schema, path, visited + {m}) {
      UnfoldsCons(schema, m, path, visited);
      assert false;
    }
  }

  /**
   The tree of a model is the unfolding of the field graph: its paths are exactly the walks whose models
   are distinct up to the last, and the subtree at the end is expanded with precisely the path on the stack.
   */
  lemma {:induction false} TreeUnfolds(schema: Schema, m: string, visited: set<string>, path: seq<string>, end: Deps)
    ensures LeadsTo(ExtractDeps(schema, m, visited), path, end) <==>
              var whole := [m] + path;
              && Unfolds(schema, whole, visited)
              && end == ExtractDeps(schema, whole[|path|], visited + Elements(whole[..|path|]))
    decreases |path|
  {
    var whole, d := [m] + path, ExtractDeps(schema, m, visited);
    if path == [] {
      assert visited + Elements(whole[..0]) == visited;
    } else {
      var x := path[0];
      assert path == [x] + path[1..];
      UnfoldsStep(schema, m, path, visited);
      assert visited + Elements(whole[..|path|]) == (visited + {m}) + Elements(path[..|path| - 1]) by {
        assert whole[..|path|] == [m] + path[..|path| - 1];
      }
      TreeUnfolds(schema, x, visited + {m}, path[1..], end);
      if LeadsTo(d, path, end) {
        var child :| (x, child) in Children(d) && LeadsTo(child, path[1..], end);
        ChildrenAreSuccessors(schema, m, visited, x, child);
      }
      ChildrenAreSuccessors(schema, m, visited, x, ExtractDeps(schema, x, visited + {m}));
    }
  }

  /** A path of the tree ends in the cycle marker exactly when its last model already lies on it. */
  lemma CycleMarksRepeats(schema: Schema, root: string, path: seq<string>, end: Deps)
    requires LeadsTo(ExtractDeps(schema, root, {}), path, end)
    ensures end.Cycle? <==> ([root] + path)[|path|] in ([root] + path)[..|path|]
  {
    TreeUnfolds(schema, root, {}, path, end);
  }
}
