/** What the folding of dotted keys is for: it undoes the flattening of nested objects, so an object
    and its flattened form fold to the same. */
module DottedFlattening {
  import opened Texts
  import opened SortedKeys
  import opened DottedKeys

  // ---------- Flattening ----------

  /** A key that can be part of a dotted one. */
  predicate Part(k: string) {
    k != "" && '.' !in k
  }

  /** No key anywhere is empty or dotted. */
  ghost predicate Undotted(v: Item) {
    match v
    case Scalar(_) => true
    case List(items) => forall i :: 0 <= i < |items| ==> Undotted(items[i])
    case Dict(m) => forall k :: k in m ==> Part(k) && Undotted(m[k])
  }

  /** No object inside an object is empty. */
  ghost predicate Filled(v: Item) {
    v.Dict? ==> forall k :: k in v.m ==> Filled(v.m[k]) && v.m[k] != Dict(map[])
  }

  /** The dotted keys of an object: one for each path that ends in no object. */
  function FlatKeys(v: Item): set<string>
    requires v.Dict?
  {
    (set k | k in v.m && !v.m[k].Dict?)
    + (set k, p | k in v.m && v.m[k].Dict? && p in FlatKeys(v.m[k]) :: k + ['.'] + p)
  }

  /** What is at the end of a path, if the path runs through objects only. */
  predicate Ends(v: Item, segs: seq<string>, leaf: Item)
    requires segs != []
    decreases |segs|
  {
    && v.Dict? && segs[0] in v.m
    && if |segs| == 1 then v.m[segs[0]] == leaf && !leaf.Dict? else Ends(v.m[segs[0]], segs[1..], leaf)
  }

  function At(v: Item, segs: seq<string>): Item
    requires segs != []
    decreases |segs|
  {
    if !v.Dict? || segs[0] !in v.m then v
    else if |segs| == 1 then v.m[segs[0]]
    else At(v.m[segs[0]], segs[1..])
  }

  /** The object with one entry for each path, under its dotted key. */
  function Flatten(v: Item): Item
    requires v.Dict?
  {
    Dict(map key | key in FlatKeys(v) :: At(v, Split(key, '.')))
  }

  lemma {:induction false} EndsAt(v: Item, segs: seq<string>, leaf: Item)
    requires segs != [] && Ends(v, segs, leaf)
    ensures At(v, segs) == leaf && !leaf.Dict?
    decreases |segs|
  {
    if |segs| > 1 {
      EndsAt(v.m[segs[0]], segs[1..], leaf);
    }
  }

  lemma {:induction false} EndsUndotted(v: Item, segs: seq<string>, leaf: Item)
    requires segs != [] && Ends(v, segs, leaf) && Undotted(v)
    ensures Segments(segs) && Undotted(leaf)
    decreases |segs|
  {
    if |segs| > 1 {
      EndsUndotted(v.m[segs[0]], segs[1..], leaf);
    }
  }

  lemma SplitFirst(k: string, p: string)
    requires Part(k)
    ensures Split(k + ['.'] + p, '.') == [k] + Split(p, '.')
  {
    var pieces := [k] + Split(p, '.');
    SplitJoin(pieces, '.');
    assert pieces[1..] == Split(p, '.');
    JoinSplit(p, '.');
  }

  /** The dotted keys are exactly the joined paths that end in a leaf. */
  lemma {:induction false} FlatKeysExactly(v: Item, key: string)
    requires v.Dict? && Undotted(v)
    ensures key in FlatKeys(v) <==> Ends(v, Split(key, '.'), At(v, Split(key, '.')))
    decreases v
  {
    var segs := Split(key, '.');
    if key in FlatKeys(v) {
      if key in v.m && !v.m[key].Dict? {
        SplitWhole(key, '.');
      } else {
        var k, p :| k in v.m && v.m[k].Dict? && p in FlatKeys(v.m[k]) && key == k + ['.'] + p;
        SplitFirst(k, p);
        FlatKeysExactly(v.m[k], p);
        assert segs[1..] == Split(p, '.');
      }
    }
    if Ends(v, segs, At(v, segs)) {
      JoinSplit(key, '.');
      if |segs| > 1 {
        var p := Join(segs[1..], '.');
        SplitJoin(segs[1..], '.');
        assert Ends(v.m[segs[0]], segs[1..], At(v, segs));
        FlatKeysExactly(v.m[segs[0]], p);
        assert key == segs[0] + ['.'] + p;
      }
    }
  }

  // ---------- An object is its leaves ----------

  lemma {:induction false} SomeLeaf(v: Item) returns (segs: seq<string>)
    requires v.Dict? && v.m != map[] && Filled(v)
    ensures segs != [] && Ends(v, segs, At(v, segs))
    decreases v
  {
    var k :| k in v.m;
    if v.m[k].Dict? {
      var rest := SomeLeaf(v.m[k]);
      segs := [k] + rest;
      assert segs[1..] == rest;
    } else {
      segs := [k];
    }
  }

  ghost predicate SameLeaves(a: Item, b: Item) {
    forall segs: seq<string>, x :: segs != [] ==> (Ends(a, segs, x) <==> Ends(b, segs, x))
  }

  lemma SameLeavesBelow(a: Item, b: Item, k: string)
    requires a.Dict? && b.Dict? && SameLeaves(a, b) && k in a.m && k in b.m
    ensures SameLeaves(a.m[k], b.m[k])
  {
    forall segs: seq<string>, x | segs != [] ensures Ends(a.m[k], segs, x) <==> Ends(b.m[k], segs, x) {
      var path := [k] + segs;
      assert path[1..] == segs;
      assert Ends(a, path, x) <==> Ends(b, path, x);
    }
  }

  /** What the first has under a key, the second has. */
  lemma OneWay(a: Item, b: Item, k: string)
    requires a.Dict? && b.Dict? && SameLeaves(a, b) && Filled(a) && k in a.m
    ensures k in b.m && a.m[k].Dict? == b.m[k].Dict? && (!a.m[k].Dict? ==> a.m[k] == b.m[k])
  {
    if a.m[k].Dict? {
      var rest := SomeLeaf(a.m[k]);
      var segs := [k] + rest;
      assert segs[1..] == rest;
      assert Ends(a, segs, At(a.m[k], rest));
      assert Ends(b, segs, At(a.m[k], rest));
      assert Ends(b.m[k], rest, At(a.m[k], rest));
    } else {
      assert Ends(a, [k], a.m[k]);
      assert Ends(b, [k], a.m[k]);
    }
  }

  /** Two objects without empty ones inside that have the same leaves are the same. */
  lemma {:induction false} LeavesDetermine(a: Item, b: Item)
    requires a.Dict? && b.Dict? && Filled(a) && Filled(b) && SameLeaves(a, b)
    ensures a == b
    decreases a
  {
    hide SameLeaves;
    forall k ensures k in a.m <==> k in b.m {
      if k in a.m {
        OneWay(a, b, k);
      }
      if k in b.m {
        Turned(a, b);
        OneWay(b, a, k);
      }
    }
    forall k | k in a.m ensures a.m[k] == b.m[k] {
      OneWay(a, b, k);
      if a.m[k].Dict? {
        SameLeavesBelow(a, b, k);
        LeavesDetermine(a.m[k], b.m[k]);
      }
    }
    assert a.m == b.m;
  }

  lemma Turned(a: Item, b: Item)
    requires SameLeaves(a, b)
    ensures SameLeaves(b, a)
  {
  }

  // ---------- Insertion, in terms of leaves ----------

  /** A leaf that is inserted is one more leaf. */
  lemma {:induction false} InsertEnds(node: Entries, segs: seq<string>, leaf: Item, q: seq<string>, x: Item)
    requires segs != [] && q != [] && !leaf.Dict? && Insert(node, segs, leaf).1
    ensures Ends(Dict(Insert(node, segs, leaf).0), q, x) <==> Ends(Dict(node), q, x) || (q == segs && x == leaf)
    decreases |segs|
  {
    var head := segs[0];
    if |segs| == 1 {
      assert q == segs <==> |q| == 1 && q[0] == head;
    } else {
      var inner := if head in node then node[head].m else map[];
      if q[0] == head && |q| > 1 {
        InsertEnds(inner, segs[1..], leaf, q[1..], x);
        assert q == segs <==> q[1..] == segs[1..];
      }
    }
  }

  lemma {:induction false} InsertFilled(node: Entries, segs: seq<string>, leaf: Item)
    requires segs != [] && !leaf.Dict? && Filled(Dict(node)) && Insert(node, segs, leaf).1
    ensures Filled(Dict(Insert(node, segs, leaf).0)) && Insert(node, segs, leaf).0 != map[]
    decreases |segs|
  {
    var head := segs[0];
    assert head in Insert(node, segs, leaf).0;
    if |segs| > 1 {
      var inner := if head in node then node[head].m else map[];
      InsertFilled(inner, segs[1..], leaf);
    }
  }

  /** Where the leaves so far are among those of one object, another of its leaves has room. */
  lemma {:induction false} LeafHasRoom(node: Entries, v: Item, segs: seq<string>, leaf: Item)
    requires segs != [] && Filled(Dict(node)) && Ends(v, segs, leaf) && !Ends(Dict(node), segs, leaf)
    requires forall q: seq<string>, x :: q != [] && Ends(Dict(node), q, x) ==> Ends(v, q, x)
    ensures !Blocked(node, segs)
    decreases |segs|
  {
    var head := segs[0];
    assert head in node && !node[head].Dict? ==> Ends(Dict(node), [head], node[head]);
    if head in node && node[head].Dict? {
      var rest := SomeLeaf(node[head]);
      var path := [head] + rest;
      assert path[1..] == rest;
      assert Ends(Dict(node), path, At(node[head], rest));
      assert Ends(v, path, At(node[head], rest));
      assert Ends(v.m[head], rest, At(node[head], rest));
      if |segs| > 1 {
        forall q: seq<string>, x | q != [] && Ends(node[head], q, x) ensures Ends(v.m[head], q, x) {
          assert ([head] + q)[1..] == q;
          assert Ends(Dict(node), [head] + q, x);
          assert Ends(v, [head] + q, x);
        }
        LeafHasRoom(node[head].m, v.m[head], segs[1..], leaf);
      }
    }
  }

  // ---------- Folding the flattened form ----------

  /** The leaves folded in so far: all but those whose dotted keys are still to come. */
  ghost predicate FoldedBut(out: Entries, v: Item, keys: set<string>) {
    forall q: seq<string>, x :: q != [] ==> (Ends(Dict(out), q, x) <==> Ends(v, q, x) && Join(q, '.') !in keys)
  }

  lemma {:induction false} FoldingRebuilds(v: Item, out: Entries, flat: Entries, keys: set<string>)
    requires v.Dict? && Undotted(v) && Filled(v) && Filled(Dict(out))
    requires keys <= flat.Keys && FoldedBut(out, v, keys)
    requires forall k :: k in keys ==> Ends(v, Split(k, '.'), flat[k])
    ensures Dict(FoldDotted(out, flat, keys)) == v
    decreases |keys|
  {
    hide Ends, Filled, Undotted, FoldedOne, Insert;
    if keys == {} {
      assert SameLeaves(Dict(out), v);
      LeavesDetermine(Dict(out), v);
    } else {
      var k := Least(keys);
      var segs := Split(k, '.');
      OneLeafFolds(v, out, flat[k], k, keys);
      FoldingRebuilds(v, FoldedOne(out, k, flat[k]), flat, keys - {k});
    }
  }

  /** One more leaf: it has room, and goes to its place. */
  lemma OneLeafFolds(v: Item, out: Entries, leaf: Item, k: string, keys: set<string>)
    requires Undotted(v) && Filled(Dict(out)) && FoldedBut(out, v, keys) && k in keys && Ends(v, Split(k, '.'), leaf)
    ensures Filled(Dict(FoldedOne(out, k, leaf))) && FoldedBut(FoldedOne(out, k, leaf), v, keys - {k})
  {
    hide Ends, Filled, Insert, Undotted;
    var segs := Split(k, '.');
    JoinSplit(k, '.');
    EndsAt(v, segs, leaf);
    LeafHasRoom(out, v, segs, leaf);
    InsertFailsCleanly(out, segs, leaf);
    InsertFilled(out, segs, leaf);
    var after := FoldedOne(out, k, leaf);
    forall q: seq<string>, x | q != []
      ensures Ends(Dict(after), q, x) <==> Ends(v, q, x) && Join(q, '.') !in keys - {k}
    {
      InsertEnds(out, segs, leaf, q, x);
      if Ends(v, q, x) {
        EndsUndotted(v, q, x);
        SplitJoin(q, '.');
        EndsAt(v, q, x);
      }
    }
  }

  lemma {:induction false} UndottedIsCanonical(v: Item)
    requires Undotted(v)
    ensures Canonical(v)
  {
    match v {
      case Scalar(_) =>
      case List(items) =>
        forall i | 0 <= i < |items| ensures Canonical(items[i]) {
          UndottedIsCanonical(items[i]);
        }
      case Dict(m) =>
        forall k | k in m ensures Canonical(m[k]) && !Folds(k) {
          UndottedIsCanonical(m[k]);
          NoDotDoesNotFold(k);
        }
    }
  }

  /** Folding leaves never makes an empty object. */
  lemma {:induction false} FoldingFills(out: Entries, flat: Entries, keys: set<string>)
    requires Filled(Dict(out)) && keys <= flat.Keys && forall k :: k in keys ==> !flat[k].Dict?
    ensures Filled(Dict(FoldDotted(out, flat, keys)))
    decreases |keys|
  {
    hide Insert;
    if keys != {} {
      var k := Least(keys);
      var segs := Split(k, '.');
      InsertFailsCleanly(out, segs, flat[k]);
      if Insert(out, segs, flat[k]).1 {
        InsertFilled(out, segs, flat[k]);
      }
      FoldingFills(FoldedOne(out, k, flat[k]), flat, keys - {k});
    }
  }

  /** Folding undoes flattening: an object with no empty or dotted keys comes back from its flattened
      form exactly when no object inside it is empty. */
  lemma UnflattenUndoesFlatten(v: Item)
    requires v.Dict? && Undotted(v)
    ensures Unflatten(Flatten(v)) == v <==> Filled(v)
  {
    hide Unflatten, Undotted, FoldDotted, Flatten;
    var flat := FlatIsFolded(v);
    PlainPart(v, flat);
    FoldingFills(Plain(flat), flat, Dotted(flat));
    if Filled(v) {
      FoldingRebuilds(v, Plain(flat), flat, Dotted(flat));
    }
  }

  /** Only the top of the flattened form folds. */
  lemma FlatIsFolded(v: Item) returns (flat: Entries)
    requires v.Dict? && Undotted(v)
    ensures flat == Flatten(v).m && forall k :: k in flat ==> !flat[k].Dict? && Ends(v, Split(k, '.'), flat[k])
    ensures Unflatten(Flatten(v)) == Dict(FoldDotted(Plain(flat), flat, Dotted(flat)))
  {
    hide Ends, Filled, FlatKeys, At, Unflatten, Undotted, Folds;
    flat := Flatten(v).m;
    forall k | k in flat
      ensures !flat[k].Dict? && Ends(v, Split(k, '.'), flat[k]) && Unflatten(flat[k]) == flat[k]
    {
      FlatKeysExactly(v, k);
      EndsAt(v, Split(k, '.'), flat[k]);
      EndsUndotted(v, Split(k, '.'), flat[k]);
      UndottedIsCanonical(flat[k]);
      CanonicalIsFixed(flat[k]);
    }
    UnflattenDict(flat, flat);
  }

  lemma UnflattenDict(m: Entries, folded: Entries)
    requires folded.Keys == m.Keys && forall k :: k in m ==> folded[k] == Unflatten(m[k])
    ensures Unflatten(Dict(m)) == Dict(FoldDotted(Plain(folded), folded, Dotted(folded)))
  {
    assert folded == map k | k in m :: Unflatten(m[k]);
  }

  /** A path that ends in a leaf has its entry in the flattened form, and there are no others. */
  lemma EntryOfPath(v: Item, flat: Entries, q: seq<string>, x: Item)
    requires v.Dict? && Undotted(v) && flat == Flatten(v).m && q != [] && Ends(v, q, x)
    ensures Segments(q) && Split(Join(q, '.'), '.') == q && Join(q, '.') in flat && flat[Join(q, '.')] == x
  {
    EndsUndotted(v, q, x);
    SplitJoin(q, '.');
    EndsAt(v, q, x);
    FlatKeysExactly(v, Join(q, '.'));
  }

  lemma PathOfEntry(v: Item, flat: Entries, k: string)
    requires v.Dict? && Undotted(v) && flat == Flatten(v).m && k in flat
    ensures Ends(v, Split(k, '.'), flat[k]) && !flat[k].Dict? && Segments(Split(k, '.'))
    ensures !Folds(k) ==> Split(k, '.') == [k]
  {
    hide Ends, FlatKeys;
    FlatKeysExactly(v, k);
    EndsAt(v, Split(k, '.'), flat[k]);
    EndsUndotted(v, Split(k, '.'), flat[k]);
    JoinSplit(k, '.');
    if !Folds(k) {
      assert |Split(k, '.')| == 1;
    }
  }

  lemma ShallowEnds(m: Entries, q: seq<string>, x: Item)
    requires q != [] && forall k :: k in m ==> !m[k].Dict?
    ensures Ends(Dict(m), q, x) <==> |q| == 1 && q[0] in m && m[q[0]] == x
  {
    assert |q| > 1 && q[0] in m ==> !Ends(m[q[0]], q[1..], x);
  }

  /** The keys that do not fold are the leaves of the object itself. */
  lemma PlainPart(v: Item, flat: Entries)
    requires v.Dict? && Undotted(v) && flat == Flatten(v).m
    ensures Filled(Dict(Plain(flat))) && FoldedBut(Plain(flat), v, Dotted(flat))
  {
    hide Undotted, Flatten, Folds;
    forall k | k in flat ensures !flat[k].Dict? {
      PathOfEntry(v, flat, k);
    }
    forall q: seq<string>, x | q != []
      ensures Ends(Dict(Plain(flat)), q, x) <==> Ends(v, q, x) && Join(q, '.') !in Dotted(flat)
    {
      ShallowEnds(Plain(flat), q, x);
      if Ends(Dict(Plain(flat)), q, x) {
        PathOfEntry(v, flat, q[0]);
        assert |q| == 1;
      }
      if Ends(v, q, x) && Join(q, '.') !in Dotted(flat) {
        EntryOfPath(v, flat, q, x);
        PathOfEntry(v, flat, Join(q, '.'));
        assert q == [Join(q, '.')];
      }
    }
  }

  /** So exactly such an object and its flattened form fold to the same. */
  lemma FlattenedComparesEqual(v: Item)
    requires v.Dict? && Undotted(v)
    ensures Unflatten(Flatten(v)) == Unflatten(v) <==> Filled(v)
  {
    UnflattenUndoesFlatten(v);
    UndottedIsCanonical(v);
    CanonicalIsFixed(v);
  }
}
