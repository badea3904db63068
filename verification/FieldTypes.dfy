/**
 Which models the annotation of a field mentions, and the edges and trees that follow from it. The containers that
 the extraction builds on the way do not occur in these definitions.
 */
module FieldTypes {
  import opened DependencyTree
  import opened Wrappers
  import opened Graphs

  // ------------------------------------------------------------------ what an annotation mentions

  /**
   A model is mentioned as such, as the item of a list, as the value of a dictionary, as any argument of a union,
   or inside one layer of `Annotated`. Keys of dictionaries do not count.
   */
  predicate Mentions(a: Annotation, m: string) {
    match a
    case ModelType(n) => n == m
    case ListOf(item) => Mentions(item, m)
    case DictOf(_, value) => Mentions(value, m)
    case UnionOf(args) => exists arg :: arg in args && Mentions(arg, m)
    case Annotated(inner) => !inner.Annotated? && Mentions(inner, m)
    case Other => false
  }

  /** Around the whole annotation of a field any number of layers is taken off. */
  predicate FieldMentions(a: Annotation, m: string) {
    if a.Annotated? then FieldMentions(a.inner, m) else Mentions(a, m)
  }

  ghost predicate MentionsSome(a: Annotation) {
    exists m :: Mentions(a, m)
  }

  /** Some field of `p` that is neither a reference nor implied mentions `c`. */
  predicate HasFieldOf(schema: Schema, p: string, c: string) {
    p in schema && exists f :: f in schema[p] && !f.skipped && FieldMentions(f.annotation, c)
  }

  /** What the container of an annotation holds is what the annotation mentions. */
  lemma {:induction false} ContainerMentions(a: Annotation, m: string)
    ensures Mentions(a, m) <==> ExtractContainer(a).Some? && m in Leaves(ExtractContainer(a).value)
    decreases a
  {
    match a
    case ModelType(_) =>
    case Other =>
    case ListOf(item) => ContainerMentions(item, m);
    case DictOf(_, value) => ContainerMentions(value, m);
    case Annotated(inner) =>
      if !inner.Annotated? {
        ContainerMentions(inner, m);
      }
    case UnionOf(args) => OptionsMention(args, m);
  }

  lemma {:induction false} OptionsMention(args: seq<Annotation>, m: string)
    ensures (exists arg :: arg in args && Mentions(arg, m)) <==> m in LeavesOfAll(CollectUnionOptions(args))
    decreases args
  {
    if args != [] {
      var n := |args| - 1;
      OptionsMention(args[..n], m);
      ContainerMentions(args[n], m);
      var rest, r := CollectUnionOptions(args[..n]), ExtractContainer(args[n]);
      assert args == args[..n] + [args[n]];
      if r.Some? {
        assert (rest + [r.value])[..|rest|] == rest;
      } else {
        assert CollectUnionOptions(args) == rest;
      }
    }
  }

  lemma {:induction false} LeavesExist(a: Annotation) returns (m: string)
    requires ExtractContainer(a).Some?
    ensures m in Leaves(ExtractContainer(a).value)
    decreases a
  {
    match a
    case ModelType(n) => m := n;
    case ListOf(item) => m := LeavesExist(item);
    case DictOf(_, value) => m := LeavesExist(value);
    case Annotated(inner) => m := LeavesExist(inner);
    case UnionOf(args) => m := OptionLeavesExist(args);
  }

  lemma {:induction false} OptionLeavesExist(args: seq<Annotation>) returns (m: string)
    requires CollectUnionOptions(args) != []
    ensures m in LeavesOfAll(CollectUnionOptions(args))
    decreases args
  {
    var n := |args| - 1;
    var rest, r := CollectUnionOptions(args[..n]), ExtractContainer(args[n]);
    if r.Some? {
      m := LeavesExist(args[n]);
      assert (rest + [r.value])[..|rest|] == rest;
    } else {
      assert CollectUnionOptions(args) == rest;
      m := OptionLeavesExist(args[..n]);
    }
  }

  /** A container is extracted exactly if some model is mentioned. */
  lemma ContainerIffMentions(a: Annotation)
    ensures ExtractContainer(a).Some? <==> MentionsSome(a)
  {
    if ExtractContainer(a).Some? {
      var m := LeavesExist(a);
      ContainerMentions(a, m);
    }
    if m :| Mentions(a, m) {
      ContainerMentions(a, m);
    }
  }

  lemma {:induction false} UnwrappedMentions(a: Annotation, m: string)
    ensures FieldMentions(a, m) <==> Mentions(Unwrapped(a), m)
    ensures !Unwrapped(a).Annotated?
  {
    if a.Annotated? {
      UnwrappedMentions(a.inner, m);
    }
  }

  lemma {:induction false} FieldsMention(fields: seq<Field>, c: string)
    ensures c in FieldLeaves(fields) <==> exists f :: f in fields && !f.skipped && FieldMentions(f.annotation, c)
  {
    if fields != [] {
      var n := |fields| - 1;
      FieldsMention(fields[..n], c);
      UnwrappedMentions(fields[n].annotation, c);
      ContainerMentions(Unwrapped(fields[n].annotation), c);
      assert fields == fields[..n] + [fields[n]];
    }
  }

  /** The field graph has an edge from each model to the models that its followed fields mention. */
  lemma EdgeMeaning(schema: Schema, p: string, c: string)
    ensures Edge(ModelGraph(schema), p, c) <==> HasFieldOf(schema, p, c)
  {
    if p in schema {
      FieldsMention(schema[p], c);
    }
  }

  // ------------------------------------------------------------------ the shape of the tree

  /**
   The structure has the shape of the annotation: a node for each layer, and under a union, in order, those of
   its arguments that mention a model.
   */
  ghost predicate Mirrors(a: Annotation, s: Structure) {
    match a
    case ModelType(m) => s.ModelNode? && s.model == m
    case ListOf(item) => s.ListNode? && Mirrors(item, s.items)
    case DictOf(key, value) => s.DictNode? && s.keys == key && Mirrors(value, s.values)
    case UnionOf(args) => s.UnionNode? && MirrorsAll(args, s.options)
    case Annotated(inner) => !inner.Annotated? && Mirrors(inner, s)
    case Other => false
  }

  ghost predicate MirrorsAll(args: seq<Annotation>, options: seq<Structure>) {
    if args == [] then options == []
    else if MentionsSome(args[|args| - 1]) then
      && options != []
      && Mirrors(args[|args| - 1], options[|options| - 1])
      && MirrorsAll(args[..|args| - 1], options[..|options| - 1])
    else MirrorsAll(args[..|args| - 1], options)
  }

  ghost predicate FieldMirrors(a: Annotation, s: Structure) {
    if a.Annotated? then FieldMirrors(a.inner, s) else Mirrors(a, s)
  }

  ghost predicate IsFollowed(f: Field) {
    !f.skipped && exists m :: FieldMentions(f.annotation, m)
  }

  /** One entry for each field that is followed, in order, with its name, its marker and its shape. */
  ghost predicate EntriesMirror(fields: seq<Field>, entries: seq<Entry>) {
    if fields == [] then entries == []
    else
      var f := fields[|fields| - 1];
      if IsFollowed(f) then
        && entries != []
        && entries[|entries| - 1].name == f.name && entries[|entries| - 1].external == f.external
        && FieldMirrors(f.annotation, entries[|entries| - 1].structure)
        && EntriesMirror(fields[..|fields| - 1], entries[..|entries| - 1])
      else EntriesMirror(fields[..|fields| - 1], entries)
  }

  lemma {:induction false} BuiltMirrors(schema: Schema, a: Annotation, visited: set<string>)
    requires ExtractContainer(a).Some?
    ensures Mirrors(a, Build(schema, ExtractContainer(a).value, visited))
    decreases a
  {
    match a
    case ModelType(_) =>
    case ListOf(item) => BuiltMirrors(schema, item, visited);
    case DictOf(_, value) => BuiltMirrors(schema, value, visited);
    case Annotated(inner) => BuiltMirrors(schema, inner, visited);
    case UnionOf(args) => BuiltOptionsMirror(schema, args, visited);
  }

  lemma {:induction false} BuiltOptionsMirror(schema: Schema, args: seq<Annotation>, visited: set<string>)
    ensures MirrorsAll(args, BuildAll(schema, CollectUnionOptions(args), visited))
    decreases args
  {
    if args != [] {
      var n := |args| - 1;
      BuiltOptionsMirror(schema, args[..n], visited);
      ContainerIffMentions(args[n]);
      var rest, r := CollectUnionOptions(args[..n]), ExtractContainer(args[n]);
      if r.Some? {
        assert CollectUnionOptions(args) == rest + [r.value];
        BuiltMirrors(schema, args[n], visited);
        BuildAppend(schema, rest, r.value, visited);
      } else {
        assert CollectUnionOptions(args) == rest;
      }
    }
  }

  lemma BuildAppend(schema: Schema, options: seq<Container>, last: Container, visited: set<string>)
    ensures BuildAll(schema, options + [last], visited)
         == BuildAll(schema, options, visited) + [Build(schema, last, visited)]
  {
    assert (options + [last])[..|options|] == options;
  }

  lemma {:induction false} FieldIsMirrored(a: Annotation, s: Structure)
    ensures FieldMirrors(a, s) <==> Mirrors(Unwrapped(a), s)
  {
    if a.Annotated? {
      FieldIsMirrored(a.inner, s);
    }
  }

  lemma FollowedHasContainer(f: Field)
    ensures ContainerOf(f).Some? <==> IsFollowed(f)
  {
    ContainerIffMentions(Unwrapped(f.annotation));
    forall m ensures FieldMentions(f.annotation, m) <==> Mentions(Unwrapped(f.annotation), m) {
      UnwrappedMentions(f.annotation, m);
    }
  }

  lemma {:induction false} ExtractedMirror(schema: Schema, fields: seq<Field>, visited: set<string>)
    ensures EntriesMirror(fields, ExtractFields(schema, fields, visited))
    decreases |fields|
  {
    if fields != [] {
      var n := |fields| - 1;
      var f, rest := fields[n], ExtractFields(schema, fields[..n], visited);
      ExtractedMirror(schema, fields[..n], visited);
      FollowedHasContainer(f);
      if IsFollowed(f) {
        var c := ContainerOf(f).value;
        var last := Entry(f.name, f.external, Build(schema, c, visited));
        BuiltMirrors(schema, Unwrapped(f.annotation), visited);
        FieldIsMirrored(f.annotation, Build(schema, c, visited));
        assert ExtractFields(schema, fields, visited) == rest + [last];
        assert (rest + [last])[..|rest|] == rest;
      } else {
        assert ExtractFields(schema, fields, visited) == rest;
      }
    }
  }

  /** The tree of a model mirrors its fields. */
  lemma TreeMirrors(schema: Schema, m: string, visited: set<string>)
    ensures ExtractDeps(schema, m, visited).Cycle? <==> m in visited
    ensures m in schema && m !in visited ==>
              EntriesMirror(schema[m], ExtractDeps(schema, m, visited).entries)
    ensures m !in schema && m !in visited ==> ExtractDeps(schema, m, visited).entries == []
  {
    if m in schema && m !in visited {
      ExtractedMirror(schema, schema[m], visited + {m});
    }
  }
}
