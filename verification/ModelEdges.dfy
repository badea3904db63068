/**
 The edges that the walk over dependency trees collects. A model is on the shared `visited` set only
 while it is being walked, so an edge is recorded once for each way to reach it, and it is missed
 exactly when its child already lies on every way to its parent.
 */
module ModelEdges {
  import opened DependencyTree
  import opened Graphs
  import opened Wrappers

  type ModelEdge = (string, string)

  // ------------------------------------------------------------------ the walk

  /** The models at the leaves of a structure, in order. */
  function Heads(s: Structure): seq<string> {
    match s
    case ModelNode(m, _) => [m]
    case ListNode(items) => Heads(items)
    case DictNode(_, values) => Heads(values)
    case UnionNode(options) => HeadsOfAll(options)
  }

  function HeadsOfAll(options: seq<Structure>): seq<string> {
    if options == [] then [] else HeadsOfAll(options[..|options| - 1]) + Heads(options[|options| - 1])
  }

  function EntryHeads(entries: seq<Entry>): seq<string> {
    if entries == [] then [] else EntryHeads(entries[..|entries| - 1]) + Heads(entries[|entries| - 1].structure)
  }

  /** A walk of distinct models that starts at one of `heads` and keeps clear of `avoid`. */
  ghost predicate IsTrail(g: Graph<string>, heads: seq<string>, avoid: set<string>, xs: seq<string>) {
    && IsWalk(g, xs)
    && xs[0] in heads
    && NoDuplicates(xs)
    && forall x :: x in xs ==> x !in avoid
  }

  /** The last step of a trail that was entered from `parent`. */
  function LastEdge(parent: string, xs: seq<string>): ModelEdge
    requires xs != []
  {
    (if |xs| == 1 then parent else xs[|xs| - 2], xs[|xs| - 1])
  }

  ghost predicate Collected(g: Graph<string>, parent: string, heads: seq<string>, avoid: set<string>, e: ModelEdge) {
    exists xs :: IsTrail(g, heads, avoid, xs) && LastEdge(parent, xs) == e
  }

  /** `after` holds what `before` held and the edges collected from `heads`. */
  ghost predicate Grown(before: set<ModelEdge>, after: set<ModelEdge>, g: Graph<string>, parent: string,
                        heads: seq<string>, avoid: set<string>) {
    forall e :: e in after <==> e in before || Collected(g, parent, heads, avoid, e)
  }

  class Walker {
    const schema: Schema
    var edges: set<ModelEdge>
    var visited: set<string>

    constructor (schema: Schema, edges: set<ModelEdge>)
      ensures this.schema == schema && this.edges == edges && visited == {}
    {
      this.schema, this.edges := schema, edges;
      visited := {};
    }

    method WalkStructure(parent: string, s: Structure)
      modifies this
      ensures visited == old(visited)
      ensures Grown(old(edges), edges, ModelGraph(schema), parent, Heads(s), old(visited))
      decreases |schema.Keys - visited|, 1, s
    {
      match s
      case ListNode(items) => WalkStructure(parent, items);
      case DictNode(_, values) => WalkStructure(parent, values);
      case UnionNode(options) =>
        NothingFromNowhere(ModelGraph(schema), parent, visited);
        for i := 0 to |options|
          invariant visited == old(visited)
          invariant Grown(old(edges), edges, ModelGraph(schema), parent, HeadsOfAll(options[..i]), old(visited))
        {
          assert options[..i + 1][..i] == options[..i];
          ghost var between := edges;
          WalkStructure(parent, options[i]);
          GrownTwice(old(edges), between, edges, ModelGraph(schema), parent, HeadsOfAll(options[..i]),
              Heads(options[i]), visited);
        }
        assert options[..|options|] == options;
      case ModelNode(child, _) =>
        if child in visited {
          NothingPastVisited(ModelGraph(schema), parent, child, visited);
          return;
        }
        WalkModel(parent, child);
    }

    /** One model that is not yet on the stack: its edge, and the edges below it. */
    method WalkModel(parent: string, child: string)
      requires child !in visited
      modifies this
      ensures visited == old(visited)
      ensures Grown(old(edges), edges, ModelGraph(schema), parent, [child], old(visited))
      decreases |schema.Keys - visited|, 0
    {
      ghost var g, before := ModelGraph(schema), visited;
      visited := visited + {child};
      edges := edges + {(parent, child)};
      ghost var started := edges;
      var deps := ExtractModelDependencies(schema, child);
      ExtractedHeads(schema, child);
      if child in schema {
        RemainingShrinks(schema.Keys, before, child);
      }
      NothingFromNowhere(g, child, visited);
      for i := 0 to |deps.entries|
        invariant visited == before + {child}
        invariant Grown(started, edges, g, child, EntryHeads(deps.entries[..i]), before + {child})
      {
        assert deps.entries[..i + 1][..i] == deps.entries[..i];
        assert child in schema;
        ghost var between := edges;
        WalkStructure(child, deps.entries[i].structure);
        GrownTwice(started, between, edges, g, child, EntryHeads(deps.entries[..i]), Heads(deps.entries[i].structure),
            visited);
      }
      assert deps.entries[..|deps.entries|] == deps.entries;
      visited := visited - {child};
      assert visited == before;
      forall e ensures e in edges <==> e in old(edges) || Collected(g, parent, [child], before, e) {
        CollectedStep(g, parent, child, before, e);
      }
    }

    /** Every field of the root is walked with a fresh `visited`; the root itself is never on it at first. */
    method CollectEdges(root: string) returns (deps: Deps)
      modifies this
      ensures deps == ExtractDeps(schema, root, {})
      ensures Grown(old(edges), edges, ModelGraph(schema), root, Successors(ModelGraph(schema), root), {})
    {
      deps := ExtractModelDependencies(schema, root);
      ExtractedHeads(schema, root);
      visited := {};
      NothingFromNowhere(ModelGraph(schema), root, visited);
      for i := 0 to |deps.entries|
        invariant Grown(old(edges), edges, ModelGraph(schema), root, EntryHeads(deps.entries[..i]), {})
      {
        assert deps.entries[..i + 1][..i] == deps.entries[..i];
        ghost var between := edges;
        visited := {};
        WalkStructure(root, deps.entries[i].structure);
        GrownTwice(old(edges), between, edges, ModelGraph(schema), root, EntryHeads(deps.entries[..i]),
            Heads(deps.entries[i].structure), {});
      }
      assert deps.entries[..|deps.entries|] == deps.entries;
    }
  }

  // ------------------------------------------------------------------ lemmas for the walk

  lemma NothingFromNowhere(g: Graph<string>, parent: string, avoid: set<string>)
    ensures forall e :: !Collected(g, parent, [], avoid, e)
  {
  }

  lemma NothingPastVisited(g: Graph<string>, parent: string, child: string, avoid: set<string>)
    requires child in avoid
    ensures forall e :: !Collected(g, parent, [child], avoid, e)
  {
  }

  lemma GrownTwice(a: set<ModelEdge>, b: set<ModelEdge>, c: set<ModelEdge>, g: Graph<string>, parent: string,
                   first: seq<string>, second: seq<string>, avoid: set<string>)
    requires Grown(a, b, g, parent, first, avoid) && Grown(b, c, g, parent, second, avoid)
    ensures Grown(a, c, g, parent, first + second, avoid)
  {
    forall e ensures e in c <==> e in a || Collected(g, parent, first + second, avoid, e) {
      if Collected(g, parent, first + second, avoid, e) {
        var xs :| IsTrail(g, first + second, avoid, xs) && LastEdge(parent, xs) == e;
        assert IsTrail(g, first, avoid, xs) || IsTrail(g, second, avoid, xs);
      }
      if Collected(g, parent, first, avoid, e) {
        var xs :| IsTrail(g, first, avoid, xs) && LastEdge(parent, xs) == e;
        assert IsTrail(g, first + second, avoid, xs);
      }
      if Collected(g, parent, second, avoid, e) {
        var xs :| IsTrail(g, second, avoid, xs) && LastEdge(parent, xs) == e;
        assert IsTrail(g, first + second, avoid, xs);
      }
    }
  }

  /** A trail through `m` is the edge to `m`, or goes on from `m` without coming back to it. */
  lemma CollectedStep(g: Graph<string>, parent: string, m: string, avoid: set<string>, e: ModelEdge)
    requires m !in avoid
    ensures Collected(g, parent, [m], avoid, e) <==>
              e == (parent, m) || Collected(g, m, Successors(g, m), avoid + {m}, e)
  {
    if Collected(g, parent, [m], avoid, e) {
      var xs :| IsTrail(g, [m], avoid, xs) && LastEdge(parent, xs) == e;
      if |xs| > 1 {
        var ys := xs[1..];
        TrailTail(g, m, avoid, xs);
        assert LastEdge(m, ys) == e;
      }
    }
    if e == (parent, m) {
      assert IsTrail(g, [m], avoid, [m]) && LastEdge(parent, [m]) == e;
    }
    if Collected(g, m, Successors(g, m), avoid + {m}, e) {
      var ys :| IsTrail(g, Successors(g, m), avoid + {m}, ys) && LastEdge(m, ys) == e;
      TrailCons(g, m, avoid, ys);
      assert LastEdge(parent, [m] + ys) == e;
    }
  }

  lemma TrailTail(g: Graph<string>, m: string, avoid: set<string>, xs: seq<string>)
    requires IsTrail(g, [m], avoid, xs) && |xs| > 1
    ensures IsTrail(g, Successors(g, m), avoid + {m}, xs[1..])
  {
    var ys := xs[1..];
    assert xs[0] == m;
    assert Edge(g, xs[0], xs[1]);
    forall i | 0 <= i < |ys| - 1 ensures Edge(g, ys[i], ys[i + 1]) {
      assert Edge(g, xs[i + 1], xs[i + 2]);
    }
  }

  lemma TrailCons(g: Graph<string>, m: string, avoid: set<string>, ys: seq<string>)
    requires m !in avoid && IsTrail(g, Successors(g, m), avoid + {m}, ys)
    ensures IsTrail(g, [m], avoid, [m] + ys)
  {
    var xs := [m] + ys;
    forall i | 0 <= i < |xs| - 1 ensures Edge(g, xs[i], xs[i + 1]) {
      if i > 0 {
        assert Edge(g, ys[i - 1], ys[i]);
      }
    }
    assert forall y :: y in ys ==> y != m;
  }

  // ------------------------------------------------------------------ structures and the field graph

  lemma {:induction false} BuiltHeads(schema: Schema, info: Container, visited: set<string>)
    ensures Heads(Build(schema, info, visited)) == Leaves(info)
    decreases info
  {
    match info
    case Model(_) =>
    case List(items) => BuiltHeads(schema, items, visited);
    case Dict(_, values) => BuiltHeads(schema, values, visited);
    case Union(options) => BuiltHeadsOfAll(schema, options, visited);
  }

  lemma {:induction false} BuiltHeadsOfAll(schema: Schema, options: seq<Container>, visited: set<string>)
    ensures HeadsOfAll(BuildAll(schema, options, visited)) == LeavesOfAll(options)
    decreases options
  {
    if options != [] {
      var n := |options| - 1;
      assert BuildAll(schema, options, visited)[..n] == BuildAll(schema, options[..n], visited);
      BuiltHeadsOfAll(schema, options[..n], visited);
      BuiltHeads(schema, options[n], visited);
    }
  }

  lemma {:induction false} ExtractedFieldHeads(schema: Schema, fields: seq<Field>, visited: set<string>)
    ensures EntryHeads(ExtractFields(schema, fields, visited)) == FieldLeaves(fields)
    decreases |fields|
  {
    if fields != [] {
      var n := |fields| - 1;
      ExtractedFieldHeads(schema, fields[..n], visited);
      var c := ContainerOf(fields[n]);
      if c.Some? {
        var entries := ExtractFields(schema, fields, visited);
        assert entries[..|entries| - 1] == ExtractFields(schema, fields[..n], visited);
        BuiltHeads(schema, c.value, visited);
      } else {
        assert ExtractFields(schema, fields, visited) == ExtractFields(schema, fields[..n], visited);
        assert FieldLeaves(fields) == FieldLeaves(fields[..n]);
      }
    }
  }

  lemma ExtractedHeads(schema: Schema, m: string)
    ensures ExtractDeps(schema, m, {}).Fields?
    ensures m !in schema ==> ExtractDeps(schema, m, {}).entries == []
    ensures EntryHeads(ExtractDeps(schema, m, {}).entries) == Successors(ModelGraph(schema), m)
  {
    if m in schema {
      ExtractedFieldHeads(schema, schema[m], {} + {m});
    }
  }

  // ------------------------------------------------------------------ what is collected

  /** The edges `CollectEdges` adds for a root. */
  ghost predicate CollectedFrom(g: Graph<string>, root: string, e: ModelEdge) {
    Collected(g, root, Successors(g, root), {}, e)
  }

  /** `xs` leads from a field of the root to `m`; it has at least that one model. */
  ghost predicate LeadsFromRoot(g: Graph<string>, root: string, xs: seq<string>, m: string) {
    && IsWalk(g, xs)
    && xs[0] in Successors(g, root)
    && xs[|xs| - 1] == m
  }

  /** A walk can be shortened to a trail between the same ends that visits nothing else. */
  lemma {:induction false} LoopErasure(g: Graph<string>, xs: seq<string>) returns (ys: seq<string>)
    requires IsWalk(g, xs)
    ensures IsWalk(g, ys) && NoDuplicates(ys)
    ensures ys[0] == xs[0] && ys[|ys| - 1] == xs[|xs| - 1]
    ensures forall y :: y in ys ==> y in xs
    decreases |xs|
  {
    if NoDuplicates(xs) {
      ys := xs;
    } else {
      var i, j :| 0 <= i < j < |xs| && xs[i] == xs[j];
      var cut := xs[..i] + xs[j..];
      forall k | 0 <= k < |cut| - 1 ensures Edge(g, cut[k], cut[k + 1]) {
        if k < i - 1 {
          assert Edge(g, xs[k], xs[k + 1]);
        } else if k == i - 1 {
          assert Edge(g, xs[i - 1], xs[i]);
        } else {
          assert Edge(g, xs[k - i + j], xs[k - i + j + 1]);
        }
      }
      ys := LoopErasure(g, cut);
    }
  }

  /** A collected edge is a field edge. */
  lemma CollectedIsEdge(g: Graph<string>, root: string, e: ModelEdge)
    requires CollectedFrom(g, root, e)
    ensures Edge(g, e.0, e.1)
  {
    var xs :| IsTrail(g, Successors(g, root), {}, xs) && LastEdge(root, xs) == e;
    if |xs| > 1 {
      assert Edge(g, xs[|xs| - 2], xs[|xs| - 1]);
    }
  }

  lemma TrailWithoutLast(g: Graph<string>, root: string, zs: seq<string>)
    requires IsTrail(g, Successors(g, root), {}, zs) && |zs| > 1
    ensures LeadsFromRoot(g, root, zs[..|zs| - 1], zs[|zs| - 2]) && zs[|zs| - 1] !in zs[..|zs| - 1]
  {
    var xs := zs[..|zs| - 1];
    forall i | 0 <= i < |xs| - 1 ensures Edge(g, xs[i], xs[i + 1]) {
      assert Edge(g, zs[i], zs[i + 1]);
    }
  }

  lemma TrailWithOneMore(g: Graph<string>, root: string, xs: seq<string>, p: string, c: string)
    requires LeadsFromRoot(g, root, xs, p) && c !in xs && Edge(g, p, c)
    ensures CollectedFrom(g, root, (p, c))
  {
    var ys := LoopErasure(g, xs);
    var zs := ys + [c];
    forall i | 0 <= i < |zs| - 1 ensures Edge(g, zs[i], zs[i + 1]) {
      if i < |ys| - 1 {
        assert Edge(g, ys[i], ys[i + 1]);
      }
    }
    assert IsTrail(g, Successors(g, root), {}, zs) && LastEdge(root, zs) == (p, c);
  }

  /**
   A field edge is collected if and only if it leaves the root, or some way to its parent does not
   already pass through its child.
   */
  lemma CollectedIff(g: Graph<string>, root: string, p: string, c: string)
    requires Edge(g, p, c)
    ensures CollectedFrom(g, root, (p, c)) <==>
              p == root || exists xs :: LeadsFromRoot(g, root, xs, p) && c !in xs
  {
    if CollectedFrom(g, root, (p, c)) {
      var zs :| IsTrail(g, Successors(g, root), {}, zs) && LastEdge(root, zs) == (p, c);
      if |zs| > 1 {
        TrailWithoutLast(g, root, zs);
      }
    }
    if p == root {
      assert IsTrail(g, Successors(g, root), {}, [c]) && LastEdge(root, [c]) == (p, c);
    }
    if xs :| LeadsFromRoot(g, root, xs, p) && c !in xs {
      TrailWithOneMore(g, root, xs, p, c);
    }
  }

  /** The children of the collected edges are exactly the models that the root reaches by one edge or more. */
  lemma CollectedChildren(g: Graph<string>, root: string, c: string)
    ensures (exists p :: CollectedFrom(g, root, (p, c))) <==> exists xs :: LeadsFromRoot(g, root, xs, c)
  {
    if p :| CollectedFrom(g, root, (p, c)) {
      var xs :| IsTrail(g, Successors(g, root), {}, xs) && LastEdge(root, xs) == (p, c);
      assert LeadsFromRoot(g, root, xs, c);
    }
    if xs :| LeadsFromRoot(g, root, xs, c) {
      var ys := LoopErasure(g, xs);
      assert IsTrail(g, Successors(g, root), {}, ys) && LastEdge(root, ys) == (LastEdge(root, ys).0, c);
      assert CollectedFrom(g, root, (LastEdge(root, ys).0, c));
    }
  }

  ghost predicate IsRootOrBelow(g: Graph<string>, root: string, m: string) {
    m == root || exists xs :: LeadsFromRoot(g, root, xs, m)
  }

  /** "All directed dependency edges reachable from a root": the edges of the root and of all it reaches. */
  ghost predicate AllEdgesCollected(g: Graph<string>, root: string) {
    forall p, c :: Edge(g, p, c) && IsRootOrBelow(g, root, p) ==> CollectedFrom(g, root, (p, c))
  }

  /** `c` lies on every way from the root's fields to `p`. */
  ghost predicate Dominates(g: Graph<string>, root: string, c: string, p: string) {
    forall xs :: LeadsFromRoot(g, root, xs, p) ==> c in xs
  }

  /** The promise is kept exactly when no edge below the root leads back to a dominator of its parent. */
  lemma AllEdgesIff(g: Graph<string>, root: string)
    ensures AllEdgesCollected(g, root) <==>
              forall p, c :: Edge(g, p, c) && p != root && IsRootOrBelow(g, root, p) ==> !Dominates(g, root, c, p)
  {
    forall p, c | Edge(g, p, c) && IsRootOrBelow(g, root, p)
      ensures CollectedFrom(g, root, (p, c)) <==> p == root || !Dominates(g, root, c, p)
    {
      CollectedIff(g, root, p, c);
    }
  }

  lemma WalkClosesLoop(g: Graph<string>, xs: seq<string>, i: nat, c: string)
    requires IsWalk(g, xs) && i < |xs| && xs[i] == c && Edge(g, xs[|xs| - 1], c)
    ensures IsClosedWalk(g, xs[i..] + [c])
  {
    var loop := xs[i..] + [c];
    forall k | 0 <= k < |loop| - 1 ensures Edge(g, loop[k], loop[k + 1]) {
      if k < |loop| - 2 {
        assert Edge(g, xs[i + k], xs[i + k + 1]);
      }
    }
  }

  /** It is kept when no model reaches itself ... */
  lemma AcyclicIsComplete(g: Graph<string>, root: string)
    requires Acyclic(g)
    ensures AllEdgesCollected(g, root)
  {
    forall p, c | Edge(g, p, c) && p != root && IsRootOrBelow(g, root, p)
      ensures !Dominates(g, root, c, p)
    {
      var xs :| LeadsFromRoot(g, root, xs, p);
      if c in xs {
        var i :| 0 <= i < |xs| && xs[i] == c;
        WalkClosesLoop(g, xs, i, c);
      }
    }
    AllEdgesIff(g, root);
  }

  /** ... and broken by every model, other than the root, that has a field of its own type. */
  lemma SelfEdgeIsMissed(g: Graph<string>, root: string, m: string)
    requires m != root
    ensures !CollectedFrom(g, root, (m, m))
  {
    if CollectedFrom(g, root, (m, m)) {
      CollectedIsEdge(g, root, (m, m));
      CollectedIff(g, root, m, m);
    }
  }

  /** A class tree: a configuration with a list of classes, each with a list of child classes. */
  const RECURSIVE_SCHEMA: Schema := map[
    "Config" := [Field("classes", ListOf(ModelType("Class")), None, false)],
    "Class" := [Field("children", UnionOf([ListOf(ModelType("Class")), Other]), None, false)]
  ]

  lemma RecursiveModelLosesAnEdge(schema: Schema, g: Graph<string>)
    requires schema == RECURSIVE_SCHEMA && g == ModelGraph(schema)
    ensures Edge(g, "Class", "Class")
    ensures CollectedFrom(g, "Config", ("Config", "Class")) && !CollectedFrom(g, "Config", ("Class", "Class"))
    ensures !AllEdgesCollected(g, "Config")
  {
    RecursiveGraph(schema);
    CollectedIff(g, "Config", "Config", "Class");
    SelfEdgeIsMissed(g, "Config", "Class");
    assert LeadsFromRoot(g, "Config", ["Class"], "Class");
  }

  lemma RecursiveGraph(schema: Schema)
    requires schema == RECURSIVE_SCHEMA
    ensures ModelGraph(schema) == map["Config" := ["Class"], "Class" := ["Class"]]
  {
    var list := ListOf(ModelType("Class"));
    assert ExtractContainer(ModelType("Class")) == Some(Model("Class"));
    assert ExtractContainer(list) == Some(List(Model("Class")));
    assert [list][..0] == [] && [list, Other][..1] == [list];
    assert CollectUnionOptions([]) == [];
    assert CollectUnionOptions([list]) == [List(Model("Class"))];
    assert CollectUnionOptions([list, Other]) == [List(Model("Class"))];
    assert [List(Model("Class"))][..0] == [];
    assert LeavesOfAll([List(Model("Class"))]) == ["Class"];
    assert schema["Class"][..0] == [] && schema["Config"][..0] == [];
    assert FieldLeaves([]) == [];
    assert FieldLeaves(schema["Config"]) == ["Class"];
    assert FieldLeaves(schema["Class"]) == ["Class"];
  }

  // ------------------------------------------------------------------ the inverted graph

  type Reverse = map<string, set<string>>

  ghost predicate IsInverse(edges: set<ModelEdge>, reverse: Reverse) {
    && (forall p, c :: (p, c) in edges <==> c in reverse && p in reverse[c])
    && (forall c :: c in reverse ==> reverse[c] != {})
  }

  method Invert(edges: set<ModelEdge>) returns (reverse: Reverse)
    ensures IsInverse(edges, reverse)
  {
    reverse := map[];
    var rest := edges;
    while rest != {}
      invariant rest <= edges
      invariant IsInverse(edges - rest, reverse)
    {
      var e :| e in rest;
      rest := rest - {e};
      var parents := if e.1 in reverse then reverse[e.1] else {};
      reverse := reverse[e.1 := parents + {e.0}];
    }
  }

  /** Inverting loses nothing: the edges can be read back. */
  lemma InverseIsFaithful(a: set<ModelEdge>, b: set<ModelEdge>, reverse: Reverse)
    requires IsInverse(a, reverse) && IsInverse(b, reverse)
    ensures a == b
  {
    forall e: ModelEdge ensures e in a <==> e in b {
      assert e == (e.0, e.1);
    }
  }
}
