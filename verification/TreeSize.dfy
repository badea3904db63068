/** The number of dictionaries, lists and scalars in a piece of data, which every effective deletion lowers. */
module TreeSize {
  import opened Trees

  ghost function Pick(keys: set<Key>): (k: Key)
    requires keys != {}
    ensures k in keys
  {
    var k :| k in keys;
    k
  }

  ghost function Size(t: Tree): (n: nat)
    ensures n > 0
    decreases t, 0
  {
    match t
    case Leaf(_) => 1
    case Dict(fields) => 1 + FieldsSize(t, fields.Keys)
    case List(items) => 1 + ItemsSize(items)
  }

  /** The entries of a dictionary under some of its keys. */
  ghost function FieldsSize(t: Tree, keys: set<Key>): nat
    requires t.Dict? && keys <= t.fields.Keys
    decreases t, 0, |keys|
  {
    if keys == {} then 0
    else
      var k := Pick(keys);
      Size(t.fields[k]) + FieldsSize(t, keys - {k})
  }

  ghost function ItemsSize(items: seq<Tree>): nat
    decreases items, 0
  {
    if items == [] then 0 else ItemsSize(items[..|items| - 1]) + Size(items[|items| - 1])
  }

  // ------------------------------------------------------------------ what is counted

  lemma {:induction false} BelowCount(k: Key, places: set<Loc>) returns (below: set<Loc>)
    ensures forall p: Loc :: p in below <==> p != [] && p[0] == k && p[1..] in places
    ensures |below| == |places|
    decreases |places|
  {
    if places == {} {
      below := {};
    } else {
      var l :| l in places;
      below := BelowCount(k, places - {l});
      assert ([k] + l)[1..] == l;
      assert forall p: Loc :: p != [] && p[0] == k && p[1..] == l ==> p == [k] + l;
      below := below + {[k] + l};
    }
  }

  /** The locations of the data are counted, each once. */
  lemma {:induction false} SizeMeaning(t: Tree) returns (places: set<Loc>)
    ensures forall p :: p in places <==> At(t, p).Some?
    ensures |places| == Size(t)
    decreases t, 0
  {
    match t
    case Leaf(_) =>
      places := {[]};
    case Dict(fields) =>
      var rest := FieldsPlaces(t, fields.Keys);
      places := rest + {[]};
    case List(items) =>
      var rest := ItemsPlaces(items);
      places := rest + {[]};
  }

  lemma {:induction false} FieldsPlaces(t: Tree, keys: set<Key>) returns (places: set<Loc>)
    requires t.Dict? && keys <= t.fields.Keys
    ensures forall p :: p in places <==> p != [] && p[0] in keys && At(t, p).Some?
    ensures |places| == FieldsSize(t, keys)
    decreases t, 0, |keys|
  {
    if keys == {} {
      places := {};
    } else {
      var k := Pick(keys);
      var one := SizeMeaning(t.fields[k]);
      var below := BelowCount(k, one);
      var rest := FieldsPlaces(t, keys - {k});
      assert below !! rest;
      places := below + rest;
    }
  }

  lemma {:induction false} ItemsPlaces(items: seq<Tree>) returns (places: set<Loc>)
    ensures forall p :: p in places <==> p != [] && At(List(items), p).Some?
    ensures |places| == ItemsSize(items)
    decreases items, 0
  {
    if items == [] {
      places := {};
    } else {
      var n := |items| - 1;
      var one := SizeMeaning(items[n]);
      var below := BelowCount(Index(n), one);
      var rest := ItemsPlaces(items[..n]);
      forall p: Loc | p != []
        ensures At(List(items), p).Some? <==> p in rest || p in below {
        if IsItem(items, p[0]) && p[0].index < n {
          assert At(List(items), p) == At(List(items[..n]), p);
        }
      }
      assert below !! rest;
      places := below + rest;
    }
  }

  // ------------------------------------------------------------------ deletion lowers the count

  /** Any entry can be counted first. */
  lemma {:induction false} FieldsSizeSplit(t: Tree, keys: set<Key>, k: Key)
    requires t.Dict? && keys <= t.fields.Keys && k in keys
    ensures FieldsSize(t, keys) == Size(t.fields[k]) + FieldsSize(t, keys - {k})
    decreases |keys|
  {
    var first := Pick(keys);
    if first != k {
      FieldsSizeSplit(t, keys - {first}, k);
      FieldsSizeSplit(t, keys - {k}, first);
      assert keys - {first} - {k} == keys - {k} - {first};
    }
  }

  /** The count depends on the counted entries only. */
  lemma {:induction false} FieldsSizeAgrees(a: Tree, b: Tree, keys: set<Key>)
    requires a.Dict? && b.Dict? && keys <= a.fields.Keys && keys <= b.fields.Keys
    requires forall k :: k in keys ==> a.fields[k] == b.fields[k]
    ensures FieldsSize(a, keys) == FieldsSize(b, keys)
    decreases |keys|
  {
    if keys != {} {
      FieldsSizeAgrees(a, b, keys - {Pick(keys)});
    }
  }

  lemma {:induction false} ItemsSizeConcat(a: seq<Tree>, b: seq<Tree>)
    ensures ItemsSize(a + b) == ItemsSize(a) + ItemsSize(b)
    decreases |b|
  {
    if b == [] {
      assert a + b == a;
    } else {
      assert (a + b)[..|a + b| - 1] == a + b[..|b| - 1];
      ItemsSizeConcat(a, b[..|b| - 1]);
    }
  }

  lemma ItemsSizeSplit(items: seq<Tree>, i: nat)
    requires i < |items|
    ensures ItemsSize(items) == ItemsSize(items[..i]) + Size(items[i]) + ItemsSize(items[i + 1..])
  {
    assert [items[i]][..0] == [];
    ItemsSizeConcat(items[..i], [items[i]]);
    ItemsSizeConcat(items[..i] + [items[i]], items[i + 1..]);
    assert items == items[..i] + [items[i]] + items[i + 1..];
  }

  lemma FieldGone(t: Tree, k: Key)
    requires t.Dict? && k in t.fields
    ensures Size(Dict(t.fields - {k})) == Size(t) - Size(t.fields[k])
  {
    var without := Dict(t.fields - {k});
    FieldsSizeSplit(t, t.fields.Keys, k);
    assert without.fields.Keys == t.fields.Keys - {k};
    FieldsSizeAgrees(t, without, t.fields.Keys - {k});
  }

  lemma FieldReplaced(t: Tree, k: Key, child: Tree)
    requires t.Dict? && k in t.fields
    ensures Size(Dict(t.fields[k := child])) == Size(t) - Size(t.fields[k]) + Size(child)
  {
    var replaced := Dict(t.fields[k := child]);
    assert replaced.fields.Keys == t.fields.Keys;
    FieldsSizeSplit(t, t.fields.Keys, k);
    FieldsSizeSplit(replaced, t.fields.Keys, k);
    FieldsSizeAgrees(t, replaced, t.fields.Keys - {k});
  }

  lemma ItemGone(items: seq<Tree>, i: nat)
    requires i < |items|
    ensures ItemsSize(items[..i] + items[i + 1..]) == ItemsSize(items) - Size(items[i])
  {
    ItemsSizeSplit(items, i);
    ItemsSizeConcat(items[..i], items[i + 1..]);
  }

  lemma ItemReplaced(items: seq<Tree>, i: nat, child: Tree)
    requires i < |items|
    ensures ItemsSize(items[i := child]) == ItemsSize(items) - Size(items[i]) + Size(child)
  {
    ItemsSizeSplit(items, i);
    ItemsSizeSplit(items[i := child], i);
    assert items[i := child][..i] == items[..i] && items[i := child][i + 1..] == items[i + 1..];
  }

  /** A deletion leaves the data alone or makes it smaller. */
  lemma {:induction false} DeletionShrinks(t: Tree, loc: Loc)
    ensures DeleteAt(t, loc) == t || Size(DeleteAt(t, loc)) < Size(t)
    decreases loc
  {
    if loc != [] && t.Dict? && loc[0] in t.fields {
      var k := loc[0];
      if |loc| == 1 {
        FieldGone(t, k);
      } else {
        DeletionShrinks(t.fields[k], loc[1..]);
        FieldReplaced(t, k, DeleteAt(t.fields[k], loc[1..]));
        if DeleteAt(t.fields[k], loc[1..]) == t.fields[k] {
          assert t.fields[k := t.fields[k]] == t.fields;
        }
      }
    } else if loc != [] && t.List? && IsItem(t.items, loc[0]) {
      var i := loc[0].index;
      if |loc| == 1 {
        ItemGone(t.items, i);
      } else {
        DeletionShrinks(t.items[i], loc[1..]);
        ItemReplaced(t.items, i, DeleteAt(t.items[i], loc[1..]));
      }
    }
  }
}
