/** The folding of dotted keys as it is done: nested dictionaries written in place. */
module IndependentRecheck {
  import opened Texts
  import opened SortedKeys
  import opened DottedKeys

  /** What a dictionary entry holds. */
  datatype Cell = Leaf(text: string) | Array(items: seq<Cell>) | Object(node: Node)

  /** What a dictionary stands for: its object, the dictionaries it leads to, and the part of those
      each entry owns. */
  datatype View = View(model: Entries, repr: set<Node>, parts: map<string, set<Node>>)

  ghost predicate Apart(v: View, self: Node) {
    && self in v.repr && v.parts.Keys == v.model.Keys
    && (forall k :: k in v.parts ==> self !in v.parts[k] && v.parts[k] <= v.repr)
    && (forall j, k :: j in v.parts && k in v.parts && j != k ==> v.parts[j] !! v.parts[k])
  }

  ghost function Placed(v: View, key: string, fp: set<Node>, item: Item): View {
    View(v.model[key := item], v.repr + fp, v.parts[key := fp])
  }

  lemma PlacedApart(v: View, self: Node, key: string, fp: set<Node>, item: Item)
    requires Apart(v, self) && self !in fp
    requires forall k :: k in v.parts && k != key ==> fp !! v.parts[k]
    ensures Apart(Placed(v, key, fp, item), self)
  {
  }

  lemma PlacedNew(v: View, self: Node, key: string, fp: set<Node>, item: Item)
    requires Apart(v, self) && fp !! v.repr
    ensures Apart(Placed(v, key, fp, item), self)
    ensures forall k :: k in v.parts ==> self !in v.parts[k]
  {
    PlacedApart(v, self, key, fp, item);
  }

  /** The part of one entry grew, by dictionaries nobody else leads to. */
  lemma PlacedGrown(v: View, self: Node, key: string, fp: set<Node>, item: Item)
    requires Apart(v, self) && key in v.parts && (fp - v.parts[key]) !! v.repr
    ensures Apart(Placed(v, key, fp, item), self)
    ensures forall k :: k in v.parts ==> self !in v.parts[k] && (k != key ==> v.parts[k] !! v.parts[key])
    ensures v.parts[key] <= v.repr && self in v.repr
  {
    forall k | k in v.parts && k != key ensures fp !! v.parts[k] {
      assert v.parts[k] !! v.parts[key] && v.parts[k] <= v.repr;
    }
    PlacedApart(v, self, key, fp, item);
  }

  /** `c` stands for `item`, and every dictionary it leads to lies in `fp`. */
  ghost predicate Stands(c: Cell, fp: set<Node>, item: Item)
    reads fp
    decreases fp, 1, c
  {
    match c
    case Leaf(text) => item == Scalar(text)
    case Array(cells) =>
      item.List? && |item.items| == |cells| && forall i :: 0 <= i < |cells| ==> Stands(cells[i], fp, item.items[i])
    case Object(n) => n in fp && n.view.repr <= fp && n.Valid() && item == Dict(n.view.model)
  }

  /** A mutable dictionary. */
  class Node {
    var entries: map<string, Cell>
    ghost var view: View

    ghost predicate Valid()
      reads this, view.repr
      decreases view.repr, 0
    {
      && Apart(view, this) && entries.Keys == view.model.Keys
      && forall k :: k in entries ==> Stands(entries[k], view.parts[k], view.model[k])
    }

    constructor ()
      ensures Valid() && view == View(map[], {this}, map[])
    {
      entries, view := map[], View(map[], {this}, map[]);
    }

    /** `node[key] = cell`. */
    method Put(key: string, cell: Cell, ghost fp: set<Node>, ghost item: Item)
      requires Valid() && Stands(cell, fp, item) && fp !! view.repr
      modifies this
      ensures Valid() && view == Placed(old(view), key, fp, item)
    {
      hide Apart;
      PlacedNew(view, this, key, fp, item);
      entries, view := entries[key := cell], Placed(view, key, fp, item);
    }
  }

  /** Inserts the leaf at the dotted path unless something existing stands in the way; then no
      dictionary changes at all. */
  method InsertNested(node: Node, segs: seq<string>, leaf: Cell, ghost fp: set<Node>, ghost item: Item) returns (ok: bool)
    requires segs != [] && node.Valid() && Stands(leaf, fp, item) && fp !! node.view.repr
    modifies node.view.repr
    ensures node.Valid() && (node.view.model, ok) == Insert(old(node.view.model), segs, item)
    ensures old(node.view.repr) <= node.view.repr && fresh(node.view.repr - old(node.view.repr) - fp)
    ensures !ok ==> unchanged(old(node.view.repr))
    decreases |segs|
  {
    hide Apart, Stands;
    var head := segs[0];
    ApartSelf(node.view, node);
    if |segs| == 1 {
      if head in node.entries {
        return false;
      }
      node.Put(head, leaf, fp, item);
      return true;
    }
    if head !in node.entries {
      var child := new Node();
      ok := InsertNested(child, segs[1..], leaf, fp, item);
      if !ok {
        return false;
      }
      ChildStands(child);
      node.Put(head, Object(child), child.view.repr, Dict(child.view.model));
      return true;
    }
    if !node.entries[head].Object? {
      OnlyObjectsAreDicts(node.entries[head], node.view.parts[head], node.view.model[head]);
      return false;
    }
    ok := InsertBelow(node, head, segs, leaf, fp, item);
  }

  lemma ApartSelf(v: View, self: Node)
    requires Apart(v, self)
    ensures self in v.repr && v.parts.Keys == v.model.Keys
  {
  }

  lemma ChildStands(n: Node)
    requires n.Valid()
    ensures Stands(Object(n), n.view.repr, Dict(n.view.model))
  {
  }

  lemma InsertDescends(m: Entries, segs: seq<string>, item: Item)
    requires |segs| > 1 && segs[0] in m && m[segs[0]].Dict?
    ensures var (child, ok) := Insert(m[segs[0]].m, segs[1..], item);
            Insert(m, segs, item) == (m[segs[0] := Dict(child)], ok)
  {
  }

  lemma OnlyObjectsAreDicts(c: Cell, fp: set<Node>, item: Item)
    requires Stands(c, fp, item)
    ensures c.Object? <==> item.Dict?
  {
  }

  lemma ChildWithin(n: Node, fp: set<Node>, item: Item)
    requires Stands(Object(n), fp, item)
    ensures n in fp && n.view.repr <= fp && n.Valid() && item == Dict(n.view.model)
  {
  }

  /** Descends into the dictionary already under `head`. */
  method InsertBelow(node: Node, head: string, segs: seq<string>, leaf: Cell, ghost fp: set<Node>, ghost item: Item)
    returns (ok: bool)
    requires |segs| > 1 && head == segs[0] && node.Valid() && Stands(leaf, fp, item) && fp !! node.view.repr
    requires head in node.entries && node.entries[head].Object?
    modifies node.view.repr
    ensures node.Valid() && (node.view.model, ok) == Insert(old(node.view.model), segs, item)
    ensures old(node.view.repr) <= node.view.repr && fresh(node.view.repr - old(node.view.repr) - fp)
    ensures !ok ==> unchanged(old(node.view.repr))
    decreases |segs|, 0
  {
    hide Apart, Insert, Stands;
    var existing := node.entries[head].node;
    ApartSelf(node.view, node);
    ChildWithin(existing, node.view.parts[head], node.view.model[head]);
    InsertDescends(node.view.model, segs, item);
    PlacedGrown(node.view, node, head, existing.view.repr, Dict(existing.view.model));
    ok := InsertNested(existing, segs[1..], leaf, fp, item);
    if ok {
      PlacedGrown(node.view, node, head, existing.view.repr, Dict(existing.view.model));
      node.view := Placed(node.view, head, existing.view.repr, Dict(existing.view.model));
      ChildStands(existing);
    } else {
      InsertFailsCleanly(node.view.model, segs, item);
    }
  }

  // ---------- Folding a whole value ----------

  lemma {:induction false} StandsWider(c: Cell, fp: set<Node>, wider: set<Node>, item: Item)
    requires Stands(c, fp, item) && fp <= wider
    ensures Stands(c, wider, item)
    decreases c
  {
    if c.Array? {
      forall i | 0 <= i < |c.items| ensures Stands(c.items[i], wider, item.items[i]) {
        StandsWider(c.items[i], fp, wider, item.items[i]);
      }
    }
  }

  /** Folds one dotted entry into `out`, or leaves its key literal. */
  method FoldOne(out: Node, key: string, cell: Cell, ghost fp: set<Node>, ghost item: Item)
    requires out.Valid() && Stands(cell, fp, item) && fp !! out.view.repr
    modifies out.view.repr
    ensures out.Valid() && out.view.model == FoldedOne(old(out.view.model), key, item)
    ensures fresh(out.view.repr - old(out.view.repr) - fp)
  {
    hide Apart, Insert, Stands;
    ApartSelf(out.view, out);
    InsertFailsCleanly(out.view.model, Split(key, '.'), item);
    var ok := InsertNested(out, Split(key, '.'), cell, fp, item);
    if !ok {
      out.Put(key, cell, fp, item);
    }
  }

  /** Cells waiting to be folded in, each with its own part of `pool`. */
  ghost predicate Pending(cells: map<string, Cell>, parts: map<string, set<Node>>, pool: set<Node>, folded: Entries)
    reads pool
  {
    && cells.Keys == parts.Keys <= folded.Keys
    && (forall k :: k in cells ==> parts[k] <= pool && Stands(cells[k], parts[k], folded[k]))
    && (forall j, k :: j in parts && k in parts && j != k ==> parts[j] !! parts[k])
  }

  lemma PendingOne(cells: map<string, Cell>, parts: map<string, set<Node>>, pool: set<Node>, folded: Entries, k: string)
    requires Pending(cells, parts, pool, folded) && k in cells
    ensures k in parts && k in folded && Stands(cells[k], parts[k], folded[k]) && parts[k] <= pool
    ensures Pending(cells - {k}, parts - {k}, pool - parts[k], folded)
  {
    hide Stands;
  }

  lemma FoldDottedNext(out: Entries, folded: Entries, keys: set<string>, k: string)
    requires keys <= folded.Keys && IsLeast(k, keys)
    ensures FoldDotted(out, folded, keys) == FoldDotted(FoldedOne(out, k, folded[k]), folded, keys - {k})
  {
    LeastIsUnique(k, Least(keys), keys);
  }

  lemma FoldDottedNone(out: Entries, folded: Entries)
    ensures FoldDotted(out, folded, {}) == out
  {
  }

  /** Folds the dotted entries into `out`, least key first. */
  method FoldAll(out: Node, dotted: map<string, Cell>, ghost parts: map<string, set<Node>>, ghost pool: set<Node>,
                 ghost folded: Entries)
    requires out.Valid() && Pending(dotted, parts, pool, folded) && pool !! out.view.repr && dotted.Keys <= folded.Keys
    modifies out.view.repr, pool
    ensures out.Valid() && out.view.model == FoldDotted(old(out.view.model), folded, dotted.Keys)
    ensures fresh(out.view.repr - old(out.view.repr) - pool)
  {
    hide Apart, Stands, Pending, FoldDotted, FoldedOne, Node.Valid;
    var names := Sorted(dotted.Keys);
    var cells := dotted;
    ghost var rest, left := parts, pool;
    for i := 0 to |names|
      invariant out.Valid() && Pending(cells, rest, left, folded) && left !! out.view.repr && left <= pool
      invariant cells.Keys <= folded.Keys && forall n :: n in cells <==> n in names[i..]
      invariant FoldDotted(out.view.model, folded, cells.Keys) == FoldDotted(old(out.view.model), folded, dotted.Keys)
      invariant fresh(out.view.repr - old(out.view.repr) - pool)
    {
      var k := names[i];
      AscendingTail(names, i);
      PendingOne(cells, rest, left, folded, k);
      FoldDottedNext(out.view.model, folded, cells.Keys, k);
      FoldOne(out, k, cells[k], rest[k], folded[k]);
      cells, rest, left := cells - {k}, rest - {k}, left - rest[k];
    }
    assert cells.Keys == {};
    FoldDottedNone(out.view.model, folded);
  }

  /** A fresh copy of the value with its dotted keys folded. Nothing of the input changes. */
  method UnflattenDotted(value: Cell, ghost fp: set<Node>, ghost item: Item) returns (r: Cell, ghost made: set<Node>)
    requires Stands(value, fp, item)
    ensures fresh(made) && Stands(r, made, Unflatten(item))
    decreases item, 2
  {
    match value
    case Leaf(_) =>
      r, made := value, {};
    case Array(cells) =>
      r, made := UnflattenArray(cells, fp, item.items);
    case Object(node) =>
      hide Apart, Pending;
      var out, dotted;
      ghost var parts, pool;
      ghost var folded := UnflattenedEntries(item.m);
      out, dotted, parts, pool := FoldEntries(node, item.m);
      FoldAll(out, dotted, parts, pool, folded);
      r, made := Object(out), out.view.repr;
      ChildStands(out);
  }

  ghost function UnflattenedEntries(m: Entries): Entries {
    map k | k in m :: Unflatten(m[k])
  }

  method UnflattenArray(cells: seq<Cell>, ghost fp: set<Node>, ghost items: seq<Item>) returns (r: Cell, ghost made: set<Node>)
    requires Stands(Array(cells), fp, List(items))
    ensures fresh(made) && Stands(r, made, Unflatten(List(items)))
    decreases List(items), 0
  {
    var done: seq<Cell> := [];
    made := {};
    for i := 0 to |cells|
      invariant |done| == i && fresh(made)
      invariant forall j :: 0 <= j < i ==> Stands(done[j], made, Unflatten(items[j]))
    {
      ghost var more;
      var cell;
      cell, more := UnflattenDotted(cells[i], fp, items[i]);
      forall j | 0 <= j < i ensures Stands(done[j], made + more, Unflatten(items[j])) {
        StandsWider(done[j], made, made + more, Unflatten(items[j]));
      }
      StandsWider(cell, more, made + more, Unflatten(items[i]));
      done, made := done + [cell], made + more;
    }
    r := Array(done);
  }

  lemma EntryStands(node: Node, m: Entries, key: string)
    requires node.Valid() && node.view.model == m && key in m
    ensures node.entries.Keys == m.Keys && key in node.view.parts
    ensures key in node.entries && Stands(node.entries[key], node.view.parts[key], m[key])
    ensures m[key] < Dict(m)
  {
  }

  lemma PendingMore(cells: map<string, Cell>, parts: map<string, set<Node>>, pool: set<Node>, folded: Entries,
                    key: string, cell: Cell, fp: set<Node>)
    requires Pending(cells, parts, pool, folded) && key in folded && Stands(cell, fp, folded[key]) && fp !! pool
    ensures Pending(cells[key := cell], parts[key := fp], pool + fp, folded)
  {
    hide Stands;
  }

  /** The folded entries gone over so far that have a plain, or a dotted, key. */
  function PlainBut(folded: Entries, keys: set<string>): Entries {
    map k | k in folded && k !in keys && !Folds(k) :: folded[k]
  }

  function DottedBut(folded: Entries, keys: set<string>): set<string> {
    set k | k in folded && k !in keys && Folds(k)
  }

  lemma OneMore(folded: Entries, keys: set<string>, key: string)
    requires key in keys && keys <= folded.Keys
    ensures PlainBut(folded, keys - {key}) ==
              if Folds(key) then PlainBut(folded, keys) else PlainBut(folded, keys)[key := folded[key]]
    ensures DottedBut(folded, keys - {key}) == DottedBut(folded, keys) + if Folds(key) then {key} else {}
  {
    hide Folds;
  }

  lemma NoneLeft(folded: Entries)
    ensures PlainBut(folded, {}) == Plain(folded) && DottedBut(folded, {}) == Dotted(folded)
    ensures PlainBut(folded, folded.Keys) == map[] && DottedBut(folded, folded.Keys) == {}
  {
    hide Folds;
  }

  lemma NothingPending(folded: Entries)
    ensures Pending(map[], map[], {}, folded)
  {
  }

  /** Puts one folded entry where it belongs. */
  method TakeIn(out: Node, key: string, cell: Cell, ghost fp: set<Node>, dotted: map<string, Cell>,
                ghost parts: map<string, set<Node>>, ghost pool: set<Node>, ghost folded: Entries)
    returns (waiting: map<string, Cell>, ghost theirs: map<string, set<Node>>, ghost whole: set<Node>)
    requires out.Valid() && Pending(dotted, parts, pool, folded) && pool !! out.view.repr
    requires key in folded && Stands(cell, fp, folded[key]) && fp !! pool && fp !! out.view.repr
    modifies out
    ensures out.Valid() && Pending(waiting, theirs, whole, folded) && whole !! out.view.repr
    ensures out.view.repr + whole == old(out.view.repr) + pool + fp
    ensures out.view.model == if Folds(key) then old(out.view.model) else old(out.view.model)[key := folded[key]]
    ensures waiting.Keys == dotted.Keys + if Folds(key) then {key} else {}
  {
    hide Stands, Apart, Pending, Folds, Node.Valid;
    waiting, theirs, whole := dotted, parts, pool;
    if Folds(key) {
      PendingMore(dotted, parts, pool, folded, key, cell, fp);
      waiting, theirs, whole := dotted[key := cell], parts[key := fp], pool + fp;
    } else {
      ValidSelf(out);
      out.Put(key, cell, fp, folded[key]);
    }
  }

  lemma ValidSelf(n: Node)
    requires n.Valid()
    ensures n in n.view.repr
  {
  }

  /** Folds the value under `key` and puts it where it belongs. */
  method FoldEntry(node: Node, ghost m: Entries, key: string, out: Node, dotted: map<string, Cell>,
                   ghost parts: map<string, set<Node>>, ghost pool: set<Node>)
    returns (waiting: map<string, Cell>, ghost theirs: map<string, set<Node>>, ghost whole: set<Node>)
    requires node.Valid() && node.view.model == m && key in m
    requires out.Valid() && Pending(dotted, parts, pool, UnflattenedEntries(m)) && pool !! out.view.repr
    modifies out
    ensures out.Valid() && Pending(waiting, theirs, whole, UnflattenedEntries(m)) && whole !! out.view.repr
    ensures fresh(out.view.repr + whole - old(out.view.repr) - pool)
    ensures out.view.model == if Folds(key) then old(out.view.model) else old(out.view.model)[key := Unflatten(m[key])]
    ensures waiting.Keys == dotted.Keys + if Folds(key) then {key} else {}
    decreases Dict(m), 0
  {
    hide Stands, Apart, Pending, Folds, Unflatten, Node.Valid;
    EntryStands(node, m, key);
    var cell;
    ghost var fp;
    cell, fp := UnflattenDotted(node.entries[key], node.view.parts[key], m[key]);
    waiting, theirs, whole := TakeIn(out, key, cell, fp, dotted, parts, pool, UnflattenedEntries(m));
  }

  /** Folds each entry's value: plain keys go straight into a new dictionary, dotted ones wait. */
  method FoldEntries(node: Node, ghost m: Entries)
    returns (out: Node, dotted: map<string, Cell>, ghost parts: map<string, set<Node>>, ghost pool: set<Node>)
    requires node.Valid() && node.view.model == m
    ensures out.Valid() && fresh(out.view.repr + pool) && pool !! out.view.repr
    ensures out.view.model == Plain(UnflattenedEntries(m))
    ensures dotted.Keys == Dotted(UnflattenedEntries(m)) && Pending(dotted, parts, pool, UnflattenedEntries(m))
    decreases Dict(m), 1
  {
    hide Stands, Apart, Pending, Folds, Unflatten, PlainBut, DottedBut, Node.Valid;
    out := new Node();
    dotted, parts, pool := map[], map[], {};
    ghost var folded := UnflattenedEntries(m);
    var keys := KeysOf(node, m);
    assert keys == folded.Keys;
    NothingPending(folded);
    NoneLeft(folded);
    while keys != {}
      invariant keys <= folded.Keys && node.Valid() && node.view.model == m
      invariant out.Valid() && fresh(out) && fresh(out.view.repr + pool) && pool !! out.view.repr
      invariant out.view.model == PlainBut(folded, keys) && dotted.Keys == DottedBut(folded, keys)
      invariant Pending(dotted, parts, pool, folded)
      decreases |keys|
    {
      var key :| key in keys;
      OneMore(folded, keys, key);
      dotted, parts, pool := FoldEntry(node, m, key, out, dotted, parts, pool);
      keys := keys - {key};
    }
  }

  method KeysOf(node: Node, ghost m: Entries) returns (keys: set<string>)
    requires node.Valid() && node.view.model == m
    ensures keys == m.Keys
  {
    keys := node.entries.Keys;
  }
}
