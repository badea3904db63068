/**
 Deletion at a location in place: parsed data as mutable dictionaries and lists on the heap. The loop that
 walks down and deletes does what `Trees.DeleteAt` says if and only if the container that loses an entry
 occurs in the data just once; otherwise the entry is gone wherever the container occurs.
 */
module InPlaceDeletion {
  import opened Trees
  import opened Wrappers

  datatype Content = LeafOf(value: string) | DictOf(fields: map<Key, Cell>) | ListOf(items: seq<Cell>)

  /** A dictionary, list or scalar. */
  class Cell {
    var content: Content

    constructor (content: Content)
      ensures this.content == content
    {
      this.content := content;
    }
  }

  /** Which cells make up a piece of data. */
  datatype Shape =
    | LeafShape(cell: Cell, value: string)
    | DictShape(cell: Cell, fields: map<Key, Shape>)
    | ListShape(cell: Cell, items: seq<Shape>)

  ghost function Cells(s: Shape): set<Cell> {
    match s
    case LeafShape(c, _) => {c}
    case DictShape(c, fields) => {c} + set k, x | k in fields && x in Cells(fields[k]) :: x
    case ListShape(c, items) => {c} + set i, x | 0 <= i < |items| && x in Cells(items[i]) :: x
  }

  /** What the cells of a piece of data hold. */
  type Store = map<Cell, Content>

  ghost function StoreOf(cells: set<Cell>): Store
    reads cells
  {
    map c | c in cells :: c.content
  }

  function FieldCells(fields: map<Key, Shape>): map<Key, Cell> {
    map k | k in fields :: fields[k].cell
  }

  function ItemCells(items: seq<Shape>): (r: seq<Cell>)
    ensures |r| == |items|
    ensures forall i :: 0 <= i < |items| ==> r[i] == items[i].cell
  {
    seq(|items|, i requires 0 <= i < |items| => items[i].cell)
  }

  /** The store has this shape. */
  ghost predicate Laid(h: Store, s: Shape) {
    s.cell in h &&
    match s
    case LeafShape(c, v) => h[c] == LeafOf(v)
    case DictShape(c, fields) =>
      && h[c] == DictOf(FieldCells(fields))
      && forall k :: k in fields ==> Laid(h, fields[k])
    case ListShape(c, items) =>
      && h[c] == ListOf(ItemCells(items))
      && forall i :: 0 <= i < |items| ==> Laid(h, items[i])
  }

  /** No cell occurs twice. */
  ghost predicate Separate(s: Shape) {
    match s
    case LeafShape(_, _) => true
    case DictShape(c, fields) =>
      && (forall k :: k in fields ==> Separate(fields[k]) && c !in Cells(fields[k]))
      && (forall k, m :: k in fields && m in fields && k != m ==> Cells(fields[k]) !! Cells(fields[m]))
    case ListShape(c, items) =>
      && (forall i :: 0 <= i < |items| ==> Separate(items[i]) && c !in Cells(items[i]))
      && (forall i, j :: 0 <= i < j < |items| ==> Cells(items[i]) !! Cells(items[j]))
  }

  /** The data as a value. */
  ghost function Value(s: Shape): Tree {
    match s
    case LeafShape(_, v) => Leaf(v)
    case DictShape(_, fields) => Dict(map k | k in fields :: Value(fields[k]))
    case ListShape(_, items) => List(seq(|items|, i requires 0 <= i < |items| => Value(items[i])))
  }

  // ------------------------------------------------------------------ single steps

  predicate IsItemOf(items: seq<Cell>, k: Key) {
    k.Index? && 0 <= k.index < |items|
  }

  /** One step down, if the key leads anywhere. */
  function Child(c: Content, k: Key): Option<Cell> {
    if c.DictOf? && k in c.fields then Some(c.fields[k])
    else if c.ListOf? && IsItemOf(c.items, k) then Some(c.items[k.index])
    else None
  }

  /** `del` of a key, or `pop` of an index; anything else leaves the container alone. */
  function Without(c: Content, k: Key): Content {
    if c.DictOf? && k in c.fields then DictOf(c.fields - {k})
    else if c.ListOf? && IsItemOf(c.items, k) then ListOf(c.items[..k.index] + c.items[k.index + 1..])
    else c
  }

  function ChildShape(s: Shape, k: Key): Option<Shape> {
    if s.DictShape? && k in s.fields then Some(s.fields[k])
    else if s.ListShape? && k.Index? && 0 <= k.index < |s.items| then Some(s.items[k.index])
    else None
  }

  /** The shape below `s` that `path` leads to. */
  function Below(s: Shape, path: Loc): Option<Shape>
    decreases path
  {
    if path == [] then Some(s)
    else
      var c := ChildShape(s, path[0]);
      if c.None? then None else Below(c.value, path[1..])
  }

  /** `s` with its own entry for `k` removed. */
  function WithoutShape(s: Shape, k: Key): Shape {
    if s.DictShape? && k in s.fields then DictShape(s.cell, s.fields - {k})
    else if s.ListShape? && k.Index? && 0 <= k.index < |s.items|
    then ListShape(s.cell, s.items[..k.index] + s.items[k.index + 1..])
    else s
  }

  /** `s` with `child` in the place of its child for `k`. */
  function WithChild(s: Shape, k: Key, child: Shape): Shape
    requires ChildShape(s, k).Some?
  {
    if s.DictShape? then DictShape(s.cell, s.fields[k := child]) else ListShape(s.cell, s.items[k.index := child])
  }

  /** What the shape becomes. */
  function DeletedShape(s: Shape, loc: Loc): Shape
    decreases loc
  {
    if loc == [] then s
    else if |loc| == 1 then WithoutShape(s, loc[0])
    else
      var c := ChildShape(s, loc[0]);
      if c.None? then s else WithChild(s, loc[0], DeletedShape(c.value, loc[1..]))
  }

  lemma LaidChild(h: Store, s: Shape, k: Key)
    requires Laid(h, s)
    ensures Child(h[s.cell], k).Some? <==> ChildShape(s, k).Some?
    ensures ChildShape(s, k).Some? ==>
              Laid(h, ChildShape(s, k).value) && Child(h[s.cell], k) == Some(ChildShape(s, k).value.cell)
  {
  }

  lemma ChildIsInside(s: Shape, k: Key)
    requires ChildShape(s, k).Some?
    ensures Cells(ChildShape(s, k).value) <= Cells(s)
    ensures Separate(s) ==> Separate(ChildShape(s, k).value) && s.cell !in Cells(ChildShape(s, k).value)
  {
  }

  lemma OwnCellIsInside(s: Shape)
    ensures s.cell in Cells(s)
  {
  }

  lemma {:induction false} BelowIsInside(s: Shape, path: Loc)
    requires Below(s, path).Some?
    ensures Cells(Below(s, path).value) <= Cells(s)
    decreases path
  {
    if path != [] {
      ChildIsInside(s, path[0]);
      BelowIsInside(ChildShape(s, path[0]).value, path[1..]);
    }
  }

  lemma {:induction false} BelowAppend(s: Shape, path: Loc, k: Key)
    requires Below(s, path).Some?
    ensures Below(s, path + [k]) == ChildShape(Below(s, path).value, k)
    decreases path
  {
    if path == [] {
      assert [k][1..] == [];
    } else {
      assert (path + [k])[1..] == path[1..] + [k];
      BelowAppend(ChildShape(s, path[0]).value, path[1..], k);
    }
  }

  lemma {:induction false} BelowFails(s: Shape, loc: Loc, n: nat)
    requires n < |loc| && Below(s, loc[..n]).None?
    ensures DeletedShape(s, loc) == s
    decreases |loc|
  {
    if n > 0 && ChildShape(s, loc[0]).Some? {
      assert loc[..n][1..] == loc[1..][..n - 1];
      BelowFails(ChildShape(s, loc[0]).value, loc[1..], n - 1);
    }
  }

  /** A cell outside a shape can change without disturbing it. */
  lemma {:induction false} LaidElsewhere(h: Store, s: Shape, c: Cell, content: Content)
    requires Laid(h, s) && c !in Cells(s)
    ensures Laid(h[c := content], s)
  {
    match s
    case LeafShape(_, _) =>
    case DictShape(_, fields) =>
      forall k | k in fields ensures Laid(h[c := content], fields[k]) {
        LaidElsewhere(h, fields[k], c, content);
      }
    case ListShape(_, items) =>
      forall i | 0 <= i < |items| ensures Laid(h[c := content], items[i]) {
        LaidElsewhere(h, items[i], c, content);
      }
  }

  // ------------------------------------------------------------------ what one changed cell does to the data

  /** What deleting the entry of cell `c` for `k` does to the store. */
  ghost function Lost(h: Store, c: Cell, k: Key): Store {
    if c in h then h[c := Without(h[c], k)] else h
  }

  /** `s` with the entry for `k` removed wherever cell `c` occurs. */
  ghost function LostEverywhere(s: Shape, c: Cell, k: Key): (r: Shape)
    ensures r.cell == s.cell
  {
    var inner :=
      match s
      case LeafShape(_, _) => s
      case DictShape(d, fields) => DictShape(d, map m | m in fields :: LostEverywhere(fields[m], c, k))
      case ListShape(d, items) => ListShape(d,
          seq(|items|, i requires 0 <= i < |items| => LostEverywhere(items[i], c, k)));
    if s.cell == c then WithoutShape(inner, k) else inner
  }

  /** What the shape's own cell holds. */
  function ContentOf(s: Shape): Content {
    match s
    case LeafShape(_, v) => LeafOf(v)
    case DictShape(_, fields) => DictOf(FieldCells(fields))
    case ListShape(_, items) => ListOf(ItemCells(items))
  }

  lemma LaidContent(h: Store, s: Shape)
    ensures Laid(h, s) <==> s.cell in h && h[s.cell] == ContentOf(s)
                            && forall m :: ChildShape(s, m).Some? ==> Laid(h, ChildShape(s, m).value)
  {
    match s
    case LeafShape(_, _) =>
    case DictShape(_, fields) =>
      assert forall m :: m in fields ==> ChildShape(s, m) == Some(fields[m]);
    case ListShape(_, items) =>
      assert forall i :: 0 <= i < |items| ==> ChildShape(s, Index(i)) == Some(items[i]);
  }

  lemma LostFromDict(h: Store, c: Cell, fields: map<Key, Shape>, k: Key)
    requires c in h && k in fields && h[c] == DictOf(FieldCells(fields) - {k})
    requires forall m :: m in fields ==> Laid(h, fields[m])
    ensures Laid(h, DictShape(c, fields - {k}))
  {
    assert FieldCells(fields) - {k} == FieldCells(fields - {k});
  }

  lemma LostFromList(h: Store, c: Cell, items: seq<Shape>, i: nat)
    requires c in h && i < |items| && h[c] == ListOf(ItemCells(items)[..i] + ItemCells(items)[i + 1..])
    requires forall m :: 0 <= m < |items| ==> Laid(h, items[m])
    ensures Laid(h, ListShape(c, items[..i] + items[i + 1..]))
  {
    var rest := items[..i] + items[i + 1..];
    assert ItemCells(items)[..i] + ItemCells(items)[i + 1..] == ItemCells(rest);
    forall m | 0 <= m < |rest| ensures Laid(h, rest[m]) {
      assert rest[m] == items[if m < i then m else m + 1];
    }
  }

  /** The entry of the shape's own cell is removed, its children are as they are. */
  lemma LostHere(h: Store, s: Shape, k: Key)
    requires s.cell in h && h[s.cell] == Without(ContentOf(s), k)
    requires forall m :: ChildShape(s, m).Some? ==> Laid(h, ChildShape(s, m).value)
    ensures Laid(h, WithoutShape(s, k))
  {
    if s.DictShape? && k in s.fields {
      assert forall m :: m in s.fields ==> ChildShape(s, m) == Some(s.fields[m]);
      LostFromDict(h, s.cell, s.fields, k);
    } else if s.ListShape? && k.Index? && 0 <= k.index < |s.items| {
      assert forall i :: 0 <= i < |s.items| ==> ChildShape(s, Index(i)) == Some(s.items[i]);
      LostFromList(h, s.cell, s.items, k.index);
    } else {
      LaidContent(h, s);
    }
  }

  /** Deleting from one cell removes the entry wherever the data holds that cell, and changes nothing else. */
  lemma {:induction false} LostEverywhereIsLaid(h: Store, s: Shape, c: Cell, k: Key)
    requires Laid(h, s)
    ensures Laid(Lost(h, c, k), LostEverywhere(s, c, k))
  {
    match s
    case LeafShape(_, _) =>
    case DictShape(d, fields) =>
      var inner := DictShape(d, map m | m in fields :: LostEverywhere(fields[m], c, k));
      forall m | m in fields ensures Laid(Lost(h, c, k), inner.fields[m]) {
        LostEverywhereIsLaid(h, fields[m], c, k);
      }
      assert FieldCells(inner.fields) == FieldCells(fields);
      LostOrKept(h, s, inner, c, k);
    case ListShape(d, items) =>
      var inner := ListShape(d, seq(|items|, i requires 0 <= i < |items| => LostEverywhere(items[i], c, k)));
      forall i | 0 <= i < |items| ensures Laid(Lost(h, c, k), inner.items[i]) {
        LostEverywhereIsLaid(h, items[i], c, k);
      }
      assert ItemCells(inner.items) == ItemCells(items);
      LostOrKept(h, s, inner, c, k);
  }

  lemma LostOrKept(h: Store, s: Shape, inner: Shape, c: Cell, k: Key)
    requires Laid(h, s) && inner.cell == s.cell && ContentOf(inner) == ContentOf(s)
    requires forall m :: ChildShape(inner, m).Some? ==> Laid(Lost(h, c, k), ChildShape(inner, m).value)
    ensures Laid(Lost(h, c, k), if s.cell == c then WithoutShape(inner, k) else inner)
  {
    LaidContent(h, s);
    if s.cell == c {
      LostHere(Lost(h, c, k), inner, k);
    } else {
      LaidContent(Lost(h, c, k), inner);
    }
  }

  // ------------------------------------------------------------------ when that is the deletion meant

  /** Wherever else a path leads, it is not to cell `c`. */
  ghost predicate OnlyAt(s: Shape, c: Cell, path: Loc) {
    forall q :: Below(s, q).Some? && Below(s, q).value.cell == c ==> q == path
  }

  lemma BelowStep(s: Shape, k: Key, path: Loc)
    requires ChildShape(s, k).Some?
    ensures Below(s, [k] + path) == Below(ChildShape(s, k).value, path)
  {
    assert ([k] + path)[1..] == path;
  }

  /** Where a cell does not occur, nothing is lost. */
  lemma {:induction false} LostNowhere(s: Shape, c: Cell, k: Key)
    requires forall q :: Below(s, q).Some? ==> Below(s, q).value.cell != c
    ensures LostEverywhere(s, c, k) == s
  {
    assert Below(s, []).Some?;
    forall m | ChildShape(s, m).Some? ensures LostEverywhere(ChildShape(s, m).value, c, k) == ChildShape(s, m).value {
      var child := ChildShape(s, m).value;
      forall q | Below(child, q).Some? ensures Below(child, q).value.cell != c {
        BelowStep(s, m, q);
      }
      ChildIsSmaller(s, m);
      LostNowhere(child, c, k);
    }
    SameChildren(s, c, k);
  }

  lemma ChildIsSmaller(s: Shape, k: Key)
    requires ChildShape(s, k).Some?
    ensures ChildShape(s, k).value < s
  {
  }

  lemma SameChildren(s: Shape, c: Cell, k: Key)
    requires s.cell != c
    requires forall m ::
               ChildShape(s, m).Some? ==> LostEverywhere(ChildShape(s, m).value, c, k) == ChildShape(s, m).value
    ensures LostEverywhere(s, c, k) == s
  {
    match s
    case LeafShape(_, _) =>
    case DictShape(_, fields) =>
      assert forall m :: m in fields ==> ChildShape(s, m) == Some(fields[m]);
      assert LostEverywhere(s, c, k).fields == fields;
    case ListShape(_, items) =>
      assert forall i :: 0 <= i < |items| ==> ChildShape(s, Index(i)) == Some(items[i]);
      assert LostEverywhere(s, c, k).items == items;
  }

  lemma OnlyAtChild(s: Shape, c: Cell, path: Loc, m: Key)
    requires OnlyAt(s, c, path) && path != [] && ChildShape(s, m).Some?
    ensures m == path[0] ==> OnlyAt(ChildShape(s, m).value, c, path[1..])
    ensures m != path[0] ==>
              forall q :: Below(ChildShape(s, m).value, q).Some? ==> Below(ChildShape(s, m).value, q).value.cell != c
  {
    var child := ChildShape(s, m).value;
    forall q | Below(child, q).Some? && Below(child, q).value.cell == c ensures m == path[0] && q == path[1..] {
      BelowStep(s, m, q);
      assert ([m] + q)[0] == m && ([m] + q)[1..] == q;
    }
  }

  lemma OnlyHere(s: Shape, c: Cell, m: Key)
    requires OnlyAt(s, c, []) && ChildShape(s, m).Some?
    ensures forall q :: Below(ChildShape(s, m).value, q).Some? ==> Below(ChildShape(s, m).value, q).value.cell != c
  {
    forall q | Below(ChildShape(s, m).value, q).Some? ensures Below(ChildShape(s, m).value, q).value.cell != c {
      BelowStep(s, m, q);
    }
  }

  lemma LostAtTop(s: Shape, k: Key)
    requires forall m ::
               ChildShape(s, m).Some? ==> LostEverywhere(ChildShape(s, m).value, s.cell, k) == ChildShape(s, m).value
    ensures LostEverywhere(s, s.cell, k) == WithoutShape(s, k)
  {
    match s
    case LeafShape(_, _) =>
    case DictShape(d, fields) =>
      assert forall m :: m in fields ==> ChildShape(s, m) == Some(fields[m]);
      assert (map m | m in fields :: LostEverywhere(fields[m], s.cell, k)) == fields;
    case ListShape(d, items) =>
      assert forall i :: 0 <= i < |items| ==> ChildShape(s, Index(i)) == Some(items[i]);
      assert seq(|items|, i requires 0 <= i < |items| => LostEverywhere(items[i], s.cell, k)) == items;
  }

  lemma LostInChild(s: Shape, c: Cell, n: Key, k: Key)
    requires s.cell != c && ChildShape(s, n).Some?
    requires forall m ::
               m != n && ChildShape(s, m).Some? ==>
                   LostEverywhere(ChildShape(s, m).value, c, k) == ChildShape(s, m).value
    ensures LostEverywhere(s, c, k) == WithChild(s, n, LostEverywhere(ChildShape(s, n).value, c, k))
  {
    var r, t := LostEverywhere(s, c, k), WithChild(s, n, LostEverywhere(ChildShape(s, n).value, c, k));
    if s.DictShape? {
      assert forall m :: m in s.fields ==> ChildShape(s, m) == Some(s.fields[m]);
      assert r.fields == t.fields;
    } else {
      assert forall i :: 0 <= i < |s.items| ==> ChildShape(s, Index(i)) == Some(s.items[i]);
      assert r.items == t.items;
    }
  }

  /** When the container occurs nowhere else, removing everywhere is removing at the one place. */
  lemma {:induction false} DeletedIsLost(s: Shape, path: Loc, k: Key, c: Cell)
    requires Below(s, path).Some? && c == Below(s, path).value.cell && OnlyAt(s, c, path)
    ensures DeletedShape(s, path + [k]) == LostEverywhere(s, c, k)
    decreases path
  {
    if path == [] {
      assert path + [k] == [k];
      forall m | ChildShape(s, m).Some? ensures LostEverywhere(ChildShape(s, m).value, c, k) == ChildShape(s, m).value {
        OnlyHere(s, c, m);
        LostNowhere(ChildShape(s, m).value, c, k);
      }
      LostAtTop(s, k);
    } else {
      assert Below(s, []) == Some(s);
      assert (path + [k])[1..] == path[1..] + [k];
      forall m | m != path[0] && ChildShape(s, m).Some?
        ensures LostEverywhere(ChildShape(s, m).value, c, k) == ChildShape(s, m).value
      {
        OnlyAtChild(s, c, path, m);
        LostNowhere(ChildShape(s, m).value, c, k);
      }
      OnlyAtChild(s, c, path, path[0]);
      DeletedIsLost(ChildShape(s, path[0]).value, path[1..], k, c);
      LostInChild(s, c, path[0], k);
    }
  }

  // ------------------------------------------------------------------ and when it is not

  /** One store, one cell, one shape. */
  lemma {:induction false} LaidUnique(h: Store, a: Shape, b: Shape)
    requires Laid(h, a) && Laid(h, b) && a.cell == b.cell
    ensures a == b
  {
    match a
    case LeafShape(_, _) =>
    case DictShape(_, fields) =>
      assert FieldCells(fields) == FieldCells(b.fields);
      forall m | m in fields ensures m in b.fields && fields[m] == b.fields[m] {
        assert m in FieldCells(fields) && m in FieldCells(b.fields);
        assert FieldCells(fields)[m] == FieldCells(b.fields)[m];
        LaidUnique(h, fields[m], b.fields[m]);
      }
      assert forall m :: m in b.fields ==> m in FieldCells(b.fields);
      assert fields == b.fields;
    case ListShape(_, items) =>
      forall i | 0 <= i < |items| ensures i < |b.items| && items[i] == b.items[i] {
        assert ItemCells(items)[i] == ItemCells(b.items)[i];
        LaidUnique(h, items[i], b.items[i]);
      }
      assert items == b.items;
  }

  lemma {:induction false} LaidBelow(h: Store, s: Shape, path: Loc)
    requires Laid(h, s) && Below(s, path).Some?
    ensures Laid(h, Below(s, path).value)
    decreases path
  {
    if path != [] {
      LaidChild(h, s, path[0]);
      LaidBelow(h, ChildShape(s, path[0]).value, path[1..]);
    }
  }

  /** No shape occurs inside itself. */
  lemma {:induction false} BelowIsSmaller(s: Shape, path: Loc)
    requires path != [] && Below(s, path).Some?
    ensures Below(s, path).value < s
    decreases path
  {
    ChildIsSmaller(s, path[0]);
    if |path| > 1 {
      BelowIsSmaller(ChildShape(s, path[0]).value, path[1..]);
    }
  }

  /** Deleting in one place leaves another occurrence of the container as it is. */
  lemma {:induction false} OtherOccurrenceStays(s: Shape, path: Loc, q: Loc, k: Key)
    requires Below(s, path).Some? && Below(s, q) == Below(s, path) && q != path
    ensures Below(DeletedShape(s, path + [k]), q) == Below(s, q)
    decreases path
  {
    if path == [] {
      BelowIsSmaller(s, q);
      assert false;
    } else if q == [] {
      BelowIsSmaller(s, path);
      assert false;
    } else {
      assert (path + [k])[1..] == path[1..] + [k];
      var child := ChildShape(s, path[0]).value;
      var deleted := DeletedShape(child, path[1..] + [k]);
      assert ChildShape(WithChild(s, path[0], deleted), q[0]) == if q[0] == path[0] then Some(deleted)
          else ChildShape(s, q[0]);
      if q[0] == path[0] {
        assert q == [q[0]] + q[1..] && path == [path[0]] + path[1..];
        OtherOccurrenceStays(child, path[1..], q[1..], k);
      }
    }
  }

  lemma WithoutChanges(c: Content, k: Key)
    requires Child(c, k).Some?
    ensures Without(c, k) != c
  {
    if c.DictOf? {
      assert k !in Without(c, k).fields;
    } else {
      assert |Without(c, k).items| == |c.items| - 1;
    }
  }

  lemma ElsewhereShows(h: Store, s: Shape, path: Loc, k: Key, q: Loc, c: Cell)
    requires Laid(h, s) && Below(s, path).Some? && ChildShape(Below(s, path).value, k).Some?
             && c == Below(s, path).value.cell
    requires Below(s, q).Some? && Below(s, q).value.cell == c && q != path
    ensures !Laid(Lost(h, c, k), DeletedShape(s, path + [k]))
  {
    var t, deleted := Below(s, path).value, DeletedShape(s, path + [k]);
    LaidBelow(h, s, path);
    LaidBelow(h, s, q);
    LaidUnique(h, t, Below(s, q).value);
    OtherOccurrenceStays(s, path, q, k);
    LaidChild(h, t, k);
    WithoutChanges(h[c], k);
    if Laid(Lost(h, c, k), deleted) {
      LaidBelow(Lost(h, c, k), deleted, q);
      LaidContent(h, t);
      LaidContent(Lost(h, c, k), t);
      assert false;
    }
  }

  /**
   Deleting an entry leaves the data that the deletion is meant to leave if and only if the container occurs
   in it just once. Objects shared elsewhere do no harm.
   */
  lemma DeletionLaysShapeIff(h: Store, s: Shape, path: Loc, k: Key)
    requires Laid(h, s) && Below(s, path).Some? && ChildShape(Below(s, path).value, k).Some?
    ensures var c := Below(s, path).value.cell;
            Laid(Lost(h, c, k), DeletedShape(s, path + [k])) <==> OnlyAt(s, c, path)
  {
    var c := Below(s, path).value.cell;
    if OnlyAt(s, c, path) {
      DeletedIsLost(s, path, k, c);
      LostEverywhereIsLaid(h, s, c, k);
    } else {
      var q :| Below(s, q).Some? && Below(s, q).value.cell == c && q != path;
      ElsewhereShows(h, s, path, k, q, c);
    }
  }

  /** A last key that leads nowhere changes nothing. */
  lemma {:induction false} NothingToDelete(s: Shape, path: Loc, k: Key)
    requires Below(s, path).Some? && ChildShape(Below(s, path).value, k).None?
    ensures DeletedShape(s, path + [k]) == s
    decreases path
  {
    if path == [] {
      assert path + [k] == [k];
    } else {
      assert (path + [k])[1..] == path[1..] + [k];
      NothingToDelete(ChildShape(s, path[0]).value, path[1..], k);
    }
  }

  /** The place that loses an entry holds an object that the data holds nowhere else. */
  ghost predicate Unshared(s: Shape, loc: Loc) {
    loc != [] && Below(s, loc).Some? && Below(s, Parent(loc)).Some? ==>
        OnlyAt(s, Below(s, Parent(loc)).value.cell, Parent(loc))
  }

  // ------------------------------------------------------------------ the loop

  /** The walk has come to `cur` after `i` keys. */
  ghost predicate Reached(h: Store, s: Shape, path: Loc, i: nat, cur: Cell)
    requires i <= |path|
  {
    var sub := Below(s, path[..i]);
    sub.Some? && sub.value.cell == cur && Laid(h, sub.value) && cur in h && cur in Cells(s)
  }

  lemma StepDown(h: Store, s: Shape, path: Loc, i: nat, cur: Cell)
    requires i < |path| && Reached(h, s, path, i, cur)
    ensures Child(h[cur], path[i]).Some? ==> Reached(h, s, path, i + 1, Child(h[cur], path[i]).value)
    ensures Child(h[cur], path[i]).None? ==> Below(s, path).None?
  {
    var sub := Below(s, path[..i]).value;
    LaidChild(h, sub, path[i]);
    BelowAppend(s, path[..i], path[i]);
    assert path[..i + 1] == path[..i] + [path[i]];
    if ChildShape(sub, path[i]).Some? {
      BelowIsInside(s, path[..i + 1]);
      OwnCellIsInside(ChildShape(sub, path[i]).value);
    } else {
      BelowStaysNone(s, path, i + 1);
    }
  }

  lemma {:induction false} BelowStaysNone(s: Shape, path: Loc, n: nat)
    requires n <= |path| && Below(s, path[..n]).None?
    ensures Below(s, path).None?
    decreases |path|
  {
    if ChildShape(s, path[0]).Some? {
      assert path[..n][1..] == path[1..][..n - 1];
      BelowStaysNone(ChildShape(s, path[0]).value, path[1..], n - 1);
    }
  }

  /** Walks down the keys of a path and gives up where one leads nowhere. */
  method WalkDown(data: Cell, path: Loc, ghost s: Shape, ghost h: Store) returns (end: Option<Cell>)
    requires h == StoreOf(Cells(s)) && s.cell == data && Laid(h, s)
    ensures end.None? ==> Below(s, path).None?
    ensures end.Some? ==> Reached(h, s, path, |path|, end.value)
  {
    var cur := data;
    OwnCellIsInside(s);
    for i := 0 to |path|
      invariant Reached(h, s, path, i, cur)
    {
      StepDown(h, s, path, i, cur);
      assert cur.content == h[cur];
      var next := Child(cur.content, path[i]);
      if next.None? {
        return None;
      }
      cur := next.value;
    }
    end := Some(cur);
  }

  method Remove(c: Cell, k: Key, ghost cells: set<Cell>)
    requires c in cells
    modifies c
    ensures StoreOf(cells) == Lost(old(StoreOf(cells)), c, k)
  {
    c.content := Without(c.content, k);
  }

  /** What the deletion at `loc` does to the store: the container of the last key loses one entry. */
  ghost function DeletedStore(h: Store, s: Shape, loc: Loc): Store {
    if loc != [] && Below(s, Parent(loc)).Some? then Lost(h, Below(s, Parent(loc)).value.cell, loc[|loc| - 1]) else h
  }

  /** The data in the end: the entry is gone wherever the data holds the container of the last key. */
  ghost function LostAt(s: Shape, loc: Loc): Shape {
    if loc != []
      && Below(s, Parent(loc)).Some? then LostEverywhere(s, Below(s, Parent(loc)).value.cell, loc[|loc| - 1]) else s
  }

  /** What the data reads then, whatever is shared; and when that is the deletion meant. */
  lemma DeletedStoreIsLaid(h: Store, s: Shape, loc: Loc)
    requires Laid(h, s)
    ensures Laid(DeletedStore(h, s, loc), DeletedShape(s, loc)) <==> Unshared(s, loc)
    ensures Laid(DeletedStore(h, s, loc), LostAt(s, loc))
  {
    if loc != [] {
      var path, k := Parent(loc), loc[|loc| - 1];
      assert loc == path + [k];
      if Below(s, path).None? {
        assert loc[..|path|] == path;
        BelowFails(s, loc, |path|);
        BelowStaysNone(s, loc, |path|);
      } else {
        BelowAppend(s, path, k);
        LostEverywhereIsLaid(h, s, Below(s, path).value.cell, k);
        LaidBelow(h, s, path);
        LaidChild(h, Below(s, path).value, k);
        if Below(s, loc).Some? {
          DeletionLaysShapeIff(h, s, path, k);
        } else {
          NothingToDelete(s, path, k);
          NothingLost(h, Below(s, path).value.cell, k);
        }
      }
    }
  }

  lemma NothingLost(h: Store, c: Cell, k: Key)
    requires c in h && Child(h[c], k).None?
    ensures Lost(h, c, k) == h
  {
    assert Without(h[c], k) == h[c];
  }

  /** The container is found by all keys but the last; then the last one is deleted from it. */
  method DeleteAtLoc(data: Cell, loc: Loc, ghost s: Shape)
    requires s.cell == data && Laid(StoreOf(Cells(s)), s)
    modifies Cells(s)
    ensures StoreOf(Cells(s)) == DeletedStore(old(StoreOf(Cells(s))), s, loc)
    ensures Laid(StoreOf(Cells(s)), LostAt(s, loc))
    ensures Laid(StoreOf(Cells(s)), DeletedShape(s, loc)) <==> Unshared(s, loc)
    ensures Value(DeletedShape(s, loc)) == DeleteAt(Value(s), loc)
    ensures Value(LostAt(s, loc)) == DeleteAt(Value(s), loc) <==> Unshared(s, loc)
  {
    ghost var h := StoreOf(Cells(s));
    DeletedValue(s, loc);
    DeletedStoreIsLaid(h, s, loc);
    LostValueIff(h, s, loc);
    if loc == [] {
      return;
    }
    var path, last := loc[..|loc| - 1], loc[|loc| - 1];
    var end := WalkDown(data, path, s, h);
    if end.None? {
      return;
    }
    assert path[..|path|] == path;
    Remove(end.value, last, Cells(s));
  }

  // ------------------------------------------------------------------ shapes and values

  lemma WithoutValue(s: Shape, k: Key)
    ensures Value(WithoutShape(s, k)) == DeleteAt(Value(s), [k])
  {
    if s.DictShape? && k in s.fields {
      assert Value(WithoutShape(s, k)).fields == Value(s).fields - {k};
    }
  }

  lemma ChildValue(s: Shape, k: Key, child: Shape)
    requires ChildShape(s, k).Some?
    ensures Value(WithChild(s, k, child)) ==
              if s.DictShape? then Dict(Value(s).fields[k := Value(child)])
                  else List(Value(s).items[k.index := Value(child)])
  {
    if s.DictShape? {
      assert Value(WithChild(s, k, child)).fields == Value(s).fields[k := Value(child)];
    }
  }

  /** Deleting in the shape is deleting in the value. */
  lemma {:induction false} DeletedValue(s: Shape, loc: Loc)
    ensures Value(DeletedShape(s, loc)) == DeleteAt(Value(s), loc)
    decreases loc
  {
    if |loc| == 1 {
      WithoutValue(s, loc[0]);
      assert loc == [loc[0]];
    } else if |loc| > 1 {
      var c := ChildShape(s, loc[0]);
      if c.Some? {
        DeletedValue(c.value, loc[1..]);
        ChildValue(s, loc[0], DeletedShape(c.value, loc[1..]));
      }
    }
  }

  // ------------------------------------------------------------------ when the values agree

  lemma {:induction false} ValueBelow(s: Shape, q: Loc)
    requires Below(s, q).Some?
    ensures At(Value(s), q) == Some(Value(Below(s, q).value))
    decreases q
  {
    if q != [] {
      ValueBelow(ChildShape(s, q[0]).value, q[1..]);
    }
  }

  /** No cell occurs inside itself. */
  lemma NotInsideItself(h: Store, s: Shape, q: Loc)
    requires Laid(h, s) && q != [] && Below(s, q).Some?
    ensures Below(s, q).value.cell != s.cell
  {
    LaidBelow(h, s, q);
    BelowIsSmaller(s, q);
    if Below(s, q).value.cell == s.cell {
      LaidUnique(h, s, Below(s, q).value);
      assert false;
    }
  }

  lemma LostChild(s: Shape, c: Cell, k: Key, m: Key)
    requires s.cell != c && ChildShape(s, m).Some?
    ensures ChildShape(LostEverywhere(s, c, k), m) == Some(LostEverywhere(ChildShape(s, m).value, c, k))
  {
  }

  /** A way to the container leads there also after the deletion, and finds the entry gone. */
  lemma {:induction false} LostBelow(h: Store, s: Shape, q: Loc, c: Cell, k: Key)
    requires Laid(h, s) && Below(s, q).Some? && Below(s, q).value.cell == c
    ensures Below(LostEverywhere(s, c, k), q) == Some(WithoutShape(Below(s, q).value, k))
    decreases q
  {
    if q == [] {
      forall m | ChildShape(s, m).Some? ensures LostEverywhere(ChildShape(s, m).value, c, k) == ChildShape(s, m).value {
        var child := ChildShape(s, m).value;
        forall r | Below(child, r).Some? ensures Below(child, r).value.cell != c {
          BelowStep(s, m, r);
          NotInsideItself(h, s, [m] + r);
        }
        LostNowhere(child, c, k);
      }
      LostAtTop(s, k);
    } else {
      NotInsideItself(h, s, q);
      LaidChild(h, s, q[0]);
      LostChild(s, c, k, q[0]);
      LostBelow(h, ChildShape(s, q[0]).value, q[1..], c, k);
    }
  }

  lemma WithoutChangesValue(s: Shape, k: Key)
    requires ChildShape(s, k).Some?
    ensures Value(WithoutShape(s, k)) != Value(s)
  {
    if s.DictShape? {
      assert k in Value(s).fields && k !in Value(WithoutShape(s, k)).fields;
    } else {
      assert |Value(WithoutShape(s, k)).items| == |Value(s).items| - 1;
    }
  }

  /** Another way to the container tells the data that is left from the data without the one entry. */
  lemma ElsewhereShowsInValue(h: Store, s: Shape, path: Loc, k: Key, q: Loc, c: Cell)
    requires Laid(h, s) && Below(s, path).Some? && ChildShape(Below(s, path).value, k).Some?
             && c == Below(s, path).value.cell
    requires Below(s, q).Some? && Below(s, q).value.cell == c && q != path
    ensures Value(LostEverywhere(s, c, k)) != Value(DeletedShape(s, path + [k]))
  {
    var t, lost, deleted := Below(s, path).value, LostEverywhere(s, c, k), DeletedShape(s, path + [k]);
    LaidBelow(h, s, path);
    LaidBelow(h, s, q);
    LaidUnique(h, t, Below(s, q).value);
    OtherOccurrenceStays(s, path, q, k);
    LostBelow(h, s, q, c, k);
    hide LostEverywhere, DeletedShape, Laid, Value, WithoutShape;
    ValueBelow(lost, q);
    ValueBelow(deleted, q);
    WithoutChangesValue(t, k);
  }

  /** The data that is left is the data without the named entry exactly when the container is not shared. */
  lemma LostValueIff(h: Store, s: Shape, loc: Loc)
    requires Laid(h, s)
    ensures Value(LostAt(s, loc)) == DeleteAt(Value(s), loc) <==> Unshared(s, loc)
  {
    hide Value, DeleteAt, LostEverywhere, DeletedShape, Laid, OnlyAt;
    DeletedValue(s, loc);
    DeletedStoreIsLaid(h, s, loc);
    if Unshared(s, loc) {
      LostCellStays(s, loc);
      LaidUnique(DeletedStore(h, s, loc), LostAt(s, loc), DeletedShape(s, loc));
    } else {
      var path, k := Parent(loc), loc[|loc| - 1];
      assert loc == path + [k];
      BelowAppend(s, path, k);
      var c := Below(s, path).value.cell;
      var q := OtherOccurrence(s, c, path);
      ElsewhereShowsInValue(h, s, path, k, q, c);
    }
  }

  lemma OtherOccurrence(s: Shape, c: Cell, path: Loc) returns (q: Loc)
    requires !OnlyAt(s, c, path)
    ensures Below(s, q).Some? && Below(s, q).value.cell == c && q != path
  {
    q :| Below(s, q).Some? && Below(s, q).value.cell == c && q != path;
  }

  lemma LostCellStays(s: Shape, loc: Loc)
    ensures LostAt(s, loc).cell == DeletedShape(s, loc).cell == s.cell
  {
  }

  // ------------------------------------------------------------------ one deletion after another

  lemma WithoutStaysSeparate(s: Shape, k: Key)
    requires Separate(s)
    ensures Separate(WithoutShape(s, k)) && Cells(WithoutShape(s, k)) <= Cells(s)
  {
    if s.ListShape? && k.Index? && 0 <= k.index < |s.items| {
      var i, rest := k.index, WithoutShape(s, k).items;
      forall m | 0 <= m < |rest| ensures rest[m] == s.items[if m < i then m else m + 1] {
      }
    }
  }

  lemma WithChildStaysSeparate(s: Shape, k: Key, child: Shape)
    requires Separate(s) && ChildShape(s, k).Some? && Separate(child) && Cells(child) <= Cells(ChildShape(s, k).value)
    ensures Separate(WithChild(s, k, child)) && Cells(WithChild(s, k, child)) <= Cells(s)
  {
  }

  /** The data after a deletion is again free of sharing and made of the same cells, ready for the next one. */
  lemma {:induction false} DeletedStaysSeparate(s: Shape, loc: Loc)
    requires Separate(s)
    ensures Separate(DeletedShape(s, loc)) && Cells(DeletedShape(s, loc)) <= Cells(s)
    decreases |loc|
  {
    if |loc| == 1 {
      WithoutStaysSeparate(s, loc[0]);
    } else if |loc| > 1 && ChildShape(s, loc[0]).Some? {
      var child := ChildShape(s, loc[0]).value;
      ChildIsInside(s, loc[0]);
      DeletedStaysSeparate(child, loc[1..]);
      WithChildStaysSeparate(s, loc[0], DeletedShape(child, loc[1..]));
    }
  }

  /** Data without any sharing is unshared everywhere. */
  lemma {:induction false} SeparateOnlyAt(s: Shape, path: Loc, q: Loc)
    requires Separate(s) && Below(s, path).Some? && Below(s, q).Some?
             && Below(s, q).value.cell == Below(s, path).value.cell
    ensures q == path
    decreases path
  {
    if path == [] && q != [] {
      ChildIsInside(s, q[0]);
      BelowIsInside(ChildShape(s, q[0]).value, q[1..]);
      OwnCellIsInside(Below(s, q).value);
      assert false;
    } else if path != [] {
      var child := ChildShape(s, path[0]).value;
      ChildIsInside(s, path[0]);
      BelowIsInside(child, path[1..]);
      OwnCellIsInside(Below(s, path).value);
      if q != [] {
        if q[0] == path[0] {
          SeparateOnlyAt(child, path[1..], q[1..]);
          assert q == [q[0]] + q[1..] && path == [path[0]] + path[1..];
        } else {
          BelowIsInside(ChildShape(s, q[0]).value, q[1..]);
          OwnCellIsInside(Below(s, q).value);
          ChildrenAreApart(s, path[0], q[0]);
          assert false;
        }
      } else {
        assert false;
      }
    }
  }

  lemma ChildrenAreApart(s: Shape, k: Key, m: Key)
    requires Separate(s) && k != m && ChildShape(s, k).Some? && ChildShape(s, m).Some?
    ensures Cells(ChildShape(s, k).value) !! Cells(ChildShape(s, m).value)
  {
  }

  lemma SeparateIsUnshared(s: Shape, loc: Loc)
    requires Separate(s)
    ensures Unshared(s, loc)
  {
    if loc != [] && Below(s, Parent(loc)).Some? {
      forall q | Below(s, q).Some?
        && Below(s, q).value.cell == Below(s, Parent(loc)).value.cell ensures q == Parent(loc) {
        SeparateOnlyAt(s, Parent(loc), q);
      }
    }
  }

  lemma BelowOne(s: Shape, k: Key)
    ensures Below(s, [k]) == ChildShape(s, k)
  {
    assert [k][1..] == [];
  }

  /** One object under two keys, as a YAML alias gives it: deleting below the first key shows below the second. */
  lemma SharedCellIsHitTwice(h: Store, s: Shape, a: Key, b: Key, inner: Shape, x: Key)
    requires Laid(h, s) && s.DictShape? && a in s.fields && b in s.fields && a != b
    requires s.fields[a] == inner && s.fields[b] == inner && ChildShape(inner, x).Some?
    ensures !Laid(DeletedStore(h, s, [a, x]), DeletedShape(s, [a, x]))
  {
    BelowOne(s, a);
    BelowOne(s, b);
    BelowAppend(s, [a], x);
    assert [a] + [x] == [a, x] && Parent([a, x]) == [a] && [b][0] != [a][0];
    DeletedStoreIsLaid(h, s, [a, x]);
  }
}
