/** Folding dotted keys back into nested objects without ever clobbering data. */
module DottedKeys {
  import opened Texts
  import opened SortedKeys
  import opened EvictionOrder

  /** A decoded item. Scalars are opaque; an object's key order does not matter. */
  datatype Item = Scalar(text: string) | List(items: seq<Item>) | Dict(m: Entries)
  type Entries = map<string, Item>

  /** A key that folds: two segments or more, none of them empty. */
  predicate Folds(key: string) {
    var segments := Split(key, '.');
    |segments| > 1 && forall i :: 0 <= i < |segments| ==> segments[i] != ""
  }

  /** Segments of a folding key. */
  predicate Segments(segs: seq<string>) {
    segs != [] && forall i :: 0 <= i < |segs| ==> '.' !in segs[i] && segs[i] != ""
  }

  lemma NoDotDoesNotFold(key: string)
    requires '.' !in key
    ensures !Folds(key)
  {
    SplitWhole(key, '.');
  }

  // ---------- Insertion ----------

  /** Inserting `leaf` at a dotted path, written as the effect on the object: the flag says
      whether it went in. */
  function Insert(node: Entries, segs: seq<string>, leaf: Item): (r: (Entries, bool))
    requires segs != []
    decreases |segs|
  {
    var head := segs[0];
    if |segs| == 1 then
      if head in node then (node, false) else (node[head := leaf], true)
    else if head !in node then
      var (child, ok) := Insert(map[], segs[1..], leaf);
      if ok then (node[head := Dict(child)], true) else (node, false)
    else if !node[head].Dict? then (node, false)
    else
      var (child, ok) := Insert(node[head].m, segs[1..], leaf);
      (node[head := Dict(child)], ok)
  }

  /** Existing data stands in the way: the leaf slot is taken, or a component is no object. */
  predicate Blocked(node: Entries, segs: seq<string>)
    requires segs != []
    decreases |segs|
  {
    && segs[0] in node
    && (|segs| == 1 || !node[segs[0]].Dict? || Blocked(node[segs[0]].m, segs[1..]))
  }

  /** Insertion fails exactly when it is blocked, and then changes nothing. */
  lemma {:induction false} InsertFailsCleanly(node: Entries, segs: seq<string>, leaf: Item)
    requires segs != []
    ensures Insert(node, segs, leaf).1 <==> !Blocked(node, segs)
    ensures !Insert(node, segs, leaf).1 ==> Insert(node, segs, leaf).0 == node
    decreases |segs|
  {
    var head := segs[0];
    if |segs| > 1 {
      if head !in node {
        InsertFailsCleanly(map[], segs[1..], leaf);
      } else if node[head].Dict? {
        InsertFailsCleanly(node[head].m, segs[1..], leaf);
      }
    }
  }

  /** Nothing that was there is touched: an existing key keeps its value, objects on the path
      aside, and those keep theirs. */
  ghost predicate Extends(before: Item, after: Item) {
    before == after ||
    (before.Dict? && after.Dict? && forall k :: k in before.m ==> k in after.m && Extends(before.m[k], after.m[k]))
  }

  lemma {:induction false} InsertExtends(node: Entries, segs: seq<string>, leaf: Item)
    requires segs != []
    ensures Extends(Dict(node), Dict(Insert(node, segs, leaf).0))
    decreases |segs|
  {
    var head := segs[0];
    if |segs| > 1 && head in node && node[head].Dict? {
      InsertExtends(node[head].m, segs[1..], leaf);
    }
  }

  /** What is blocked stays blocked. */
  lemma {:induction false} BlockedStays(node: Entries, segs: seq<string>, leaf: Item, other: seq<string>)
    requires segs != [] && other != [] && Blocked(node, other)
    ensures Blocked(Insert(node, segs, leaf).0, other)
    decreases |segs|
  {
    var head := segs[0];
    if |segs| > 1 && head in node && node[head].Dict? && other[0] == head && |other| > 1 {
      BlockedStays(node[head].m, segs[1..], leaf, other[1..]);
    }
  }

  /** Only the entry under the first segment matters. */
  lemma BlockedBySameHead(a: Entries, b: Entries, segs: seq<string>)
    requires segs != [] && (segs[0] in a <==> segs[0] in b) && (segs[0] in a ==> a[segs[0]] == b[segs[0]])
    ensures Blocked(a, segs) == Blocked(b, segs)
  {
  }

  // ---------- Folding ----------

  ghost function Least(keys: set<string>): (k: string)
    requires keys != {}
    ensures IsLeast(k, keys)
  {
    LeastExists(keys);
    var k :| IsLeast(k, keys);
    k
  }

  /** Folds one dotted key into `out`; a blocked key stays literal. */
  function FoldedOne(out: Entries, key: string, item: Item): Entries {
    var (next, ok) := Insert(out, Split(key, '.'), item);
    if ok then next else next[key := item]
  }

  /** Folds the dotted `keys` into `out`, in sorted order. */
  ghost function FoldDotted(out: Entries, folded: Entries, keys: set<string>): Entries
    requires keys <= folded.Keys
    decreases |keys|
  {
    if keys == {} then out else
      var k := Least(keys);
      FoldDotted(FoldedOne(out, k, folded[k]), folded, keys - {k})
  }

  ghost function Unflatten(v: Item): Item {
    match v
    case Scalar(_) => v
    case List(items) => List(seq(|items|, i requires 0 <= i < |items| => Unflatten(items[i])))
    case Dict(m) =>
      var folded := map k | k in m :: Unflatten(m[k]);
      Dict(FoldDotted(Plain(folded), folded, Dotted(folded)))
  }

  function Plain(m: Entries): Entries {
    map k | k in m && !Folds(k) :: m[k]
  }

  function Dotted(m: Entries): set<string> {
    set k | k in m && Folds(k)
  }

  // ---------- The result is canonical, and canonical items are left alone ----------

  /** Every dotted key left literal is blocked by data beside it. */
  ghost predicate Canonical(v: Item) {
    match v
    case Scalar(_) => true
    case List(items) => forall i :: 0 <= i < |items| ==> Canonical(items[i])
    case Dict(m) => forall k :: k in m ==> Canonical(m[k]) && (Folds(k) ==> Blocked(m, Split(k, '.')))
  }

  lemma SegmentsOfFolding(key: string)
    requires Folds(key)
    ensures Segments(Split(key, '.')) && Join(Split(key, '.'), '.') == key && '.' in key
  {
    JoinSplit(key, '.');
    if '.' !in key {
      NoDotDoesNotFold(key);
    }
  }

  lemma {:induction false} InsertCanonical(node: Entries, segs: seq<string>, leaf: Item)
    requires Segments(segs) && Canonical(Dict(node)) && Canonical(leaf)
    ensures Canonical(Dict(Insert(node, segs, leaf).0))
    decreases |segs|
  {
    var head := segs[0];
    var after := Insert(node, segs, leaf).0;
    NoDotDoesNotFold(head);
    if |segs| > 1 {
      if head !in node {
        assert Canonical(Dict(map[]));
        InsertCanonical(map[], segs[1..], leaf);
      } else if node[head].Dict? {
        InsertCanonical(node[head].m, segs[1..], leaf);
      }
    }
    forall k | k in after
      ensures Canonical(after[k]) && (Folds(k) ==> Blocked(after, Split(k, '.')))
    {
      if k != head && Folds(k) {
        BlockedStays(node, segs, leaf, Split(k, '.'));
      }
    }
  }

  /** A literal dotted key stands in no path's way. */
  lemma LiteralKeyBlocksNothing(out: Entries, key: string, x: Item, other: string)
    requires Folds(key) && Folds(other)
    ensures Blocked(out[key := x], Split(other, '.')) == Blocked(out, Split(other, '.'))
  {
    SegmentsOfFolding(key);
    SegmentsOfFolding(other);
    assert Split(other, '.')[0] != key;
    BlockedBySameHead(out[key := x], out, Split(other, '.'));
  }

  lemma LiteralKeyCanonical(out: Entries, key: string, x: Item)
    requires Canonical(Dict(out)) && Canonical(x) && Folds(key) && Blocked(out, Split(key, '.'))
    ensures Canonical(Dict(out[key := x]))
  {
    forall k | k in out[key := x]
      ensures Canonical(out[key := x][k]) && (Folds(k) ==> Blocked(out[key := x], Split(k, '.')))
    {
      if Folds(k) {
        LiteralKeyBlocksNothing(out, key, x, k);
      }
    }
  }

  lemma {:induction false} FoldDottedCanonical(out: Entries, folded: Entries, keys: set<string>)
    requires keys <= folded.Keys && Canonical(Dict(out))
    requires forall k :: k in keys ==> Folds(k) && Canonical(folded[k])
    ensures Canonical(Dict(FoldDotted(out, folded, keys)))
    decreases |keys|
  {
    if keys != {} {
      var k := Least(keys);
      var (next, ok) := Insert(out, Split(k, '.'), folded[k]);
      SegmentsOfFolding(k);
      InsertFailsCleanly(out, Split(k, '.'), folded[k]);
      InsertCanonical(out, Split(k, '.'), folded[k]);
      if !ok {
        LiteralKeyCanonical(out, k, folded[k]);
      }
      FoldDottedCanonical(if ok then next else next[k := folded[k]], folded, keys - {k});
    }
  }

  /** In the result any folding key left literal is blocked by existing data, at every level. */
  lemma {:induction false} UnflattenIsCanonical(v: Item)
    ensures Canonical(Unflatten(v))
  {
    match v {
      case Scalar(_) =>
      case List(items) =>
        forall i | 0 <= i < |items| ensures Canonical(Unflatten(items[i])) {
          UnflattenIsCanonical(items[i]);
        }
      case Dict(m) =>
        var folded := map k | k in m :: Unflatten(m[k]);
        forall k | k in m ensures Canonical(folded[k]) {
          UnflattenIsCanonical(m[k]);
        }
        FoldDottedCanonical(Plain(folded), folded, Dotted(folded));
    }
  }

  /** With every dotted key blocked, folding puts each back where it was. */
  lemma {:induction false} FoldDottedRebuilds(m: Entries, out: Entries, keys: set<string>)
    requires Canonical(Dict(m)) && keys <= m.Keys && forall k :: k in keys ==> Folds(k)
    requires out == map k | k in m && k !in keys :: m[k]
    ensures FoldDotted(out, m, keys) == m
    decreases |keys|
  {
    if keys == {} {
      assert out == m;
    } else {
      var k := Least(keys);
      var segs := Split(k, '.');
      SegmentsOfFolding(k);
      forall j | j in keys ensures segs[0] != j {
        SegmentsOfFolding(j);
      }
      BlockedBySameHead(m, out, segs);
      InsertFailsCleanly(out, segs, m[k]);
      var next := out[k := m[k]];
      assert next == map j | j in m && j !in keys - {k} :: m[j];
      FoldDottedRebuilds(m, next, keys - {k});
    }
  }

  lemma {:induction false} CanonicalIsFixed(v: Item)
    requires Canonical(v)
    ensures Unflatten(v) == v
  {
    match v {
      case Scalar(_) =>
      case List(items) =>
        forall i | 0 <= i < |items| ensures Unflatten(items[i]) == items[i] {
          CanonicalIsFixed(items[i]);
        }
        assert seq(|items|, i requires 0 <= i < |items| => Unflatten(items[i])) == items;
      case Dict(m) =>
        var folded := map k | k in m :: Unflatten(m[k]);
        forall k | k in m ensures folded[k] == m[k] {
          CanonicalIsFixed(m[k]);
        }
        assert folded == m;
        FoldDottedRebuilds(m, Plain(m), Dotted(m));
    }
  }

  lemma UnflattenIsIdempotent(v: Item)
    ensures Unflatten(Unflatten(v)) == Unflatten(v)
  {
    UnflattenIsCanonical(v);
    CanonicalIsFixed(Unflatten(v));
  }

  // ---------- Of two keys that want the same place ----------

  /** A leaf that went in stands in the way of every path through it. */
  lemma {:induction false} LeafBlocks(segs: seq<string>, more: seq<string>, leaf: Item)
    requires segs != [] && !leaf.Dict?
    ensures Insert(map[], segs, leaf).1 && Insert(map[], segs, leaf).0.Keys == {segs[0]}
    ensures Blocked(Insert(map[], segs, leaf).0, segs + more)
    decreases |segs|
  {
    assert (segs + more)[0] == segs[0];
    if |segs| > 1 {
      LeafBlocks(segs[1..], more, leaf);
      assert (segs + more)[1..] == segs[1..] + more;
    }
  }

  lemma LongerIsLater(k: string, p: string)
    ensures LexLess(k, k + "." + p) && !LexLess(k + "." + p, k) && Least({k, k + "." + p}) == k
  {
    var longer := k + "." + p;
    assert longer[..|k|] == k;
    assert DiffersAt(k, longer, |k|);
    LexLessExactly(k, longer);
    LexTotal(k, longer);
    LeastIsUnique(k, Least({k, longer}), {k, longer});
  }

  lemma SplitLonger(k: string, p: string)
    ensures Split(k + "." + p, '.') == Split(k, '.') + Split(p, '.')
  {
    var pieces := Split(k, '.') + Split(p, '.');
    JoinAppend(Split(k, '.'), Split(p, '.'), '.');
    JoinSplit(k, '.');
    JoinSplit(p, '.');
    SplitJoin(pieces, '.');
  }

  /** Of a dotted key and a longer one through it the shorter folds, and the longer stays literal. */
  lemma ShorterFolds(k: string, p: string, x: Item, y: Item)
    requires Folds(k) && Folds(k + "." + p) && !x.Dict?
    ensures var r := Unflatten(Dict(map[k := x, k + "." + p := y]));
            r.Dict? && k !in r.m && k + "." + p in r.m && r.m[k + "." + p] == Unflatten(y)
  {
    hide LexLess;
    var longer := k + "." + p;
    var m := map[k := x, longer := y];
    var folded := map j | j in m :: Unflatten(m[j]);
    assert Plain(folded) == map[] && Dotted(folded) == {k, longer};
    LongerIsLater(k, p);
    SegmentsOfFolding(k);
    SplitLonger(k, p);
    LeafBlocks(Split(k, '.'), Split(p, '.'), folded[k]);
    var out := FoldedOne(map[], k, folded[k]);
    assert Split(k, '.')[0] != k && Split(k, '.')[0] != longer;
    InsertFailsCleanly(out, Split(longer, '.'), folded[longer]);
    FoldTwo(folded, k, longer);
  }

  lemma FoldTwo(folded: Entries, k: string, longer: string)
    requires folded.Keys == {k, longer} && k != longer && Least({k, longer}) == k
    ensures FoldDotted(map[], folded, {k, longer}) == FoldedOne(FoldedOne(map[], k, folded[k]), longer, folded[longer])
  {
    hide FoldedOne;
    assert {k, longer} - {k} == {longer};
    assert Least({longer}) == longer;
    assert {longer} - {longer} == {};
    var one := FoldedOne(map[], k, folded[k]);
    assert FoldDotted(one, folded, {longer}) == FoldedOne(one, longer, folded[longer]);
    assert FoldDotted(map[], folded, {k, longer}) == FoldDotted(one, folded, {k, longer} - {k});
  }
}
