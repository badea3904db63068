/**
 Parsed configuration data as nested dictionaries and lists, and deletion of the item at
 a location, the way validation errors name it.
 */
module Trees {
  import opened Wrappers

  datatype Key = Name(name: string) | Index(index: int)

  type Loc = seq<Key>

  datatype Tree =
    | Leaf(value: string)
    | Dict(fields: map<Key, Tree>)
    | List(items: seq<Tree>)

  /** A list accepts the non-negative integer keys below its length, and nothing else. */
  predicate IsItem(items: seq<Tree>, k: Key) {
    k.Index? && 0 <= k.index < |items|
  }

  function Parent(loc: Loc): Loc
    requires |loc| > 0
  {
    loc[..|loc| - 1]
  }

  /** `data` without the entry at `loc`; unchanged when `loc` does not lead anywhere. */
  function DeleteAt(t: Tree, loc: Loc): Tree
    decreases loc
  {
    if loc == [] then t
    else
      match t
      case Leaf(_) => t
      case Dict(fields) =>
        if loc[0] !in fields then t
        else if |loc| == 1 then Dict(fields - {loc[0]})
        else Dict(fields[loc[0] := DeleteAt(fields[loc[0]], loc[1..])])
      case List(items) =>
        if !IsItem(items, loc[0]) then t
        else
          var i := loc[0].index;
          if |loc| == 1 then List(items[..i] + items[i + 1..])
          else List(items[i := DeleteAt(items[i], loc[1..])])
  }

  // ------------------------------------------------------------------ deletions only

  /** `b` is `a` with deletions only: sub-dictionaries, subsequences, leaves untouched. */
  ghost predicate Pruned(a: Tree, b: Tree)
    decreases a, 0
  {
    match a
    case Leaf(v) => b == a
    case Dict(fields) =>
      b.Dict? && b.fields.Keys <= fields.Keys && forall k :: k in b.fields ==> Pruned(fields[k], b.fields[k])
    case List(items) => b.List? && PrunedItems(items, b.items)
  }

  ghost predicate PrunedItems(a: seq<Tree>, b: seq<Tree>)
    decreases a, 0
  {
    || b == []
    || (a != [] && Pruned(a[0], b[0]) && PrunedItems(a[1..], b[1..]))
    || (a != [] && PrunedItems(a[1..], b))
  }

  lemma {:induction false} PrunedReflexive(t: Tree)
    ensures Pruned(t, t)
    decreases t, 0
  {
    match t
    case Leaf(_) =>
    case Dict(fields) =>
      forall k | k in fields ensures Pruned(fields[k], fields[k]) {
        PrunedReflexive(fields[k]);
      }
    case List(items) => PrunedItemsReflexive(items);
  }

  lemma {:induction false} PrunedItemsReflexive(items: seq<Tree>)
    ensures PrunedItems(items, items)
    decreases items, 0
  {
    if items != [] {
      PrunedReflexive(items[0]);
      PrunedItemsReflexive(items[1..]);
    }
  }

  lemma {:induction false} PrunedTransitive(a: Tree, b: Tree, c: Tree)
    requires Pruned(a, b) && Pruned(b, c)
    ensures Pruned(a, c)
    decreases a, 0
  {
    match a
    case Leaf(_) =>
    case Dict(fields) =>
      forall k | k in c.fields ensures Pruned(fields[k], c.fields[k]) {
        PrunedTransitive(fields[k], b.fields[k], c.fields[k]);
      }
    case List(items) => PrunedItemsTransitive(items, b.items, c.items);
  }

  lemma {:induction false} PrunedItemsTransitive(a: seq<Tree>, b: seq<Tree>, c: seq<Tree>)
    requires PrunedItems(a, b) && PrunedItems(b, c)
    ensures PrunedItems(a, c)
    decreases a, |b|
  {
    if c == [] {
    } else if Pruned(a[0], b[0]) && PrunedItems(a[1..], b[1..]) {
      if Pruned(b[0], c[0]) && PrunedItems(b[1..], c[1..]) {
        PrunedTransitive(a[0], b[0], c[0]);
        PrunedItemsTransitive(a[1..], b[1..], c[1..]);
      } else {
        PrunedItemsTransitive(a[1..], b[1..], c);
      }
    } else {
      PrunedItemsTransitive(a[1..], b, c);
    }
  }

  /** Deletion at a location only prunes. */
  lemma {:induction false} DeleteAtPrunes(t: Tree, loc: Loc)
    ensures Pruned(t, DeleteAt(t, loc))
    decreases loc
  {
    PrunedReflexive(t);
    if loc != [] {
      match t
      case Leaf(_) =>
      case Dict(fields) =>
        if loc[0] in fields && |loc| > 1 {
          DeleteAtPrunes(fields[loc[0]], loc[1..]);
        }
      case List(items) =>
        if IsItem(items, loc[0]) {
          var i := loc[0].index;
          if |loc| == 1 {
            PopPrunes(items, i);
          } else {
            DeleteAtPrunes(items[i], loc[1..]);
            UpdatePrunes(items, i, DeleteAt(items[i], loc[1..]));
          }
        }
    }
  }

  lemma {:induction false} PopPrunes(items: seq<Tree>, i: nat)
    requires i < |items|
    ensures PrunedItems(items, items[..i] + items[i + 1..])
  {
    var popped := items[..i] + items[i + 1..];
    if i == 0 {
      PrunedItemsReflexive(items[1..]);
      assert popped == items[1..];
    } else {
      PopPrunes(items[1..], i - 1);
      assert popped[1..] == items[1..][..i - 1] + items[1..][i..];
      PrunedReflexive(items[0]);
    }
  }

  lemma {:induction false} UpdatePrunes(items: seq<Tree>, i: nat, t: Tree)
    requires i < |items| && Pruned(items[i], t)
    ensures PrunedItems(items, items[i := t])
  {
    if i == 0 {
      PrunedItemsReflexive(items[1..]);
    } else {
      PrunedReflexive(items[0]);
      UpdatePrunes(items[1..], i - 1, t);
      assert items[i := t][1..] == items[1..][i - 1 := t];
    }
  }

  // ------------------------------------------------------------------ exactness on dictionaries

  function At(t: Tree, p: Loc): Option<Tree>
    decreases p
  {
    if p == [] then Some(t)
    else
      match t
      case Leaf(_) => None
      case Dict(fields) => if p[0] in fields then At(fields[p[0]], p[1..]) else None
      case List(items) => if IsItem(items, p[0]) then At(items[p[0].index], p[1..]) else None
  }

  /** Data without any list. */
  predicate AllDicts(t: Tree) {
    match t
    case Leaf(_) => true
    case Dict(fields) => forall k :: k in fields ==> AllDicts(fields[k])
    case List(_) => false
  }

  predicate IsListAt(t: Tree, p: Loc) {
    At(t, p).Some? && At(t, p).value.List?
  }

  /** List-free data: no path leads to a list. */
  lemma {:induction false} AllDictsMeaning(t: Tree)
    ensures AllDicts(t) <==> !exists p :: IsListAt(t, p)
  {
    match t
    case Leaf(_) =>
    case Dict(fields) =>
      forall k | k in fields ensures AllDicts(fields[k]) <==> !exists p :: IsListAt(fields[k], p) {
        AllDictsMeaning(fields[k]);
      }
      if p :| IsListAt(t, p) {
        assert IsListAt(fields[p[0]], p[1..]);
      }
      if k :| k in fields && !AllDicts(fields[k]) {
        var p :| IsListAt(fields[k], p);
        assert ([k] + p)[1..] == p;
        assert IsListAt(t, [k] + p);
      }
    case List(_) =>
      assert IsListAt(t, []);
  }

  /** On list-free data, deletion removes the named subtree and nothing else. */
  lemma {:induction false} DeleteAtIsExact(t: Tree, loc: Loc, p: Loc)
    requires AllDicts(t) && loc != []
    ensures AllDicts(DeleteAt(t, loc))
    ensures At(DeleteAt(t, loc), p).Some? <==> At(t, p).Some? && !(loc <= p)
    ensures At(DeleteAt(t, loc), p).Some? && At(t, p).value.Leaf? ==> At(DeleteAt(t, loc), p) == At(t, p)
    decreases loc
  {
    if t.Dict? && loc[0] in t.fields {
      if |loc| > 1 {
        DeleteAtIsExact(t.fields[loc[0]], loc[1..], if p == [] then [] else p[1..]);
      }
      if p != [] && p[0] == loc[0] {
        assert loc <= p <==> loc[1..] <= p[1..];
      }
    } else if loc <= p {
      assert p[0] == loc[0];
    }
  }

  // ------------------------------------------------------------------ putting data in place

  /** `t` with the data at `p` replaced. */
  function PutAt(t: Tree, p: Loc, s: Tree): Tree
    requires At(t, p).Some?
    decreases p
  {
    if p == [] then s
    else if t.Dict? then Dict(t.fields[p[0] := PutAt(t.fields[p[0]], p[1..], s)])
    else List(t.items[p[0].index := PutAt(t.items[p[0].index], p[1..], s)])
  }

  lemma {:induction false} AtPut(t: Tree, p: Loc, s: Tree)
    requires At(t, p).Some?
    ensures At(PutAt(t, p, s), p) == Some(s)
    decreases p
  {
    if p != [] {
      AtPut(if t.Dict? then t.fields[p[0]] else t.items[p[0].index], p[1..], s);
    }
  }

  lemma {:induction false} PutTwice(t: Tree, p: Loc, a: Tree, b: Tree)
    requires At(t, p).Some?
    ensures At(PutAt(t, p, a), p).Some? && PutAt(PutAt(t, p, a), p, b) == PutAt(t, p, b)
    decreases p
  {
    AtPut(t, p, a);
    if p != [] {
      PutTwice(if t.Dict? then t.fields[p[0]] else t.items[p[0].index], p[1..], a, b);
    }
  }

  lemma {:induction false} PutSame(t: Tree, p: Loc)
    requires At(t, p).Some?
    ensures PutAt(t, p, At(t, p).value) == t
    decreases p
  {
    if p != [] {
      PutSame(if t.Dict? then t.fields[p[0]] else t.items[p[0].index], p[1..]);
    }
  }

  /** Deleting below a location changes the data at that location and nothing else. */
  lemma {:induction false} DeleteBelow(t: Tree, p: Loc, loc: Loc)
    requires At(t, p).Some? && loc != []
    ensures DeleteAt(t, p + loc) == PutAt(t, p, DeleteAt(At(t, p).value, loc))
    decreases p
  {
    if p == [] {
      assert p + loc == loc;
    } else {
      assert (p + loc)[1..] == p[1..] + loc;
      DeleteBelow(if t.Dict? then t.fields[p[0]] else t.items[p[0].index], p[1..], loc);
    }
  }

  /** Data put in at `p` is not seen from places that are neither below nor above. */
  lemma {:induction false} PutElsewhere(t: Tree, p: Loc, s: Tree, q: Loc)
    requires At(t, p).Some? && !(p <= q) && !(q <= p)
    ensures At(PutAt(t, p, s), q) == At(t, q)
    decreases p
  {
    if p[0] == q[0] {
      assert p[1..] <= q[1..] ==> p <= q;
      assert q[1..] <= p[1..] ==> q <= p;
      PutElsewhere(if t.Dict? then t.fields[p[0]] else t.items[p[0].index], p[1..], s, q[1..]);
    }
  }

  lemma {:induction false} DeleteNowhere(t: Tree, p: Loc, k: Key)
    requires At(t, p).None?
    ensures DeleteAt(t, p + [k]) == t
    decreases p
  {
    if (t.Dict? && p[0] in t.fields) || (t.List? && IsItem(t.items, p[0])) {
      assert (p + [k])[1..] == p[1..] + [k];
      DeleteNowhere(if t.Dict? then t.fields[p[0]] else t.items[p[0].index], p[1..], k);
    }
  }

  /**
   Deletion of the entry `k` of the container at `p`, lists included: the container loses that entry, a list
   closes the gap, everything beside it is as it was, and if there is no such entry nothing changes.
   */
  lemma DeletionMeaning(t: Tree, p: Loc, k: Key, q: Loc)
    ensures var after := DeleteAt(t, p + [k]);
            match At(t, p)
            case None => after == t
            case Some(Leaf(_)) => after == t
            case Some(Dict(fields)) => At(after, p) == Some(Dict(fields - {k}))
            case Some(List(items)) =>
              if k.Index? && 0 <= k.index < |items|
              then At(after, p) == Some(List(items[..k.index] + items[k.index + 1..]))
              else after == t
    ensures !(p <= q) && !(q <= p) ==> At(DeleteAt(t, p + [k]), q) == At(t, q)
  {
    if At(t, p).None? {
      DeleteNowhere(t, p, k);
    } else {
      var c := At(t, p).value;
      DeleteBelow(t, p, [k]);
      AtPut(t, p, DeleteAt(c, [k]));
      PutSame(t, p);
      assert c.Dict? && k !in c.fields ==> c.fields - {k} == c.fields;
      if !(p <= q) && !(q <= p) {
        PutElsewhere(t, p, DeleteAt(c, [k]), q);
      }
    }
  }
}
