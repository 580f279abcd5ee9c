/** Folding dotted keys conserves data: the scalar leaves, each at its dot-joined path, are the
    same multiset before and after. */
module DottedLeaves {
  import opened Texts
  import opened DottedKeys

  /** A dot-joined path: code points, a dot before each key, and a negative number for each list
      position. */
  type Path = seq<int>

  datatype LeafAt = LeafAt(path: Path, text: string)

  /** One more key on a path. */
  function Under(path: Path, key: string): Path {
    path + ['.' as int] + Codes(key)
  }

  function UnderAll(path: Path, segs: seq<string>): Path
    decreases |segs|
  {
    if segs == [] then path else UnderAll(Under(path, segs[0]), segs[1..])
  }

  lemma {:induction false} UnderJoined(path: Path, segs: seq<string>)
    requires segs != []
    ensures UnderAll(path, segs) == Under(path, Join(segs, '.'))
    decreases |segs|
  {
    if |segs| > 1 {
      UnderJoined(Under(path, segs[0]), segs[1..]);
      var rest := Join(segs[1..], '.');
      assert Codes(segs[0] + ['.'] + rest) == Codes(segs[0]) + ['.' as int] + Codes(rest);
    } else {
      assert segs[1..] == [];
    }
  }

  /** The `n`-th list position on a path. */
  function Position(n: nat): int {
    -1 - (n as int)
  }

  ghost function Pick(keys: set<string>): (k: string)
    requires keys != {}
    ensures k in keys
  {
    var k :| k in keys;
    k
  }

  ghost function Leaves(path: Path, v: Item): multiset<LeafAt>
    decreases v, 0
  {
    match v
    case Scalar(text) => multiset{LeafAt(path, text)}
    case List(items) => ListLeaves(path, items, |items|)
    case Dict(m) => DictLeaves(path, v, m.Keys)
  }

  ghost function ListLeaves(path: Path, items: seq<Item>, n: nat): multiset<LeafAt>
    requires n <= |items|
    decreases items, n
  {
    if n == 0 then multiset{} else ListLeaves(path, items, n - 1) + Leaves(path + [Position(n)], items[n - 1])
  }

  /** The leaves of `v` under `keys`. */
  ghost function DictLeaves(path: Path, v: Item, keys: set<string>): multiset<LeafAt>
    requires v.Dict? && keys <= v.m.Keys
    decreases v, 0, |keys|
  {
    if keys == {} then multiset{} else
      var k := Pick(keys);
      Leaves(Under(path, k), v.m[k]) + DictLeaves(path, v, keys - {k})
  }

  lemma {:induction false} DictLeavesOne(path: Path, v: Item, keys: set<string>, k: string)
    requires v.Dict? && keys <= v.m.Keys && k in keys
    ensures DictLeaves(path, v, keys) == Leaves(Under(path, k), v.m[k]) + DictLeaves(path, v, keys - {k})
    decreases |keys|
  {
    var p := Pick(keys);
    if p != k {
      DictLeavesOne(path, v, keys - {p}, k);
      DictLeavesOne(path, v, keys - {k}, p);
      assert keys - {p} - {k} == keys - {k} - {p};
    }
  }

  lemma {:induction false} DictLeavesAgree(path: Path, v: Item, w: Item, keys: set<string>)
    requires v.Dict? && w.Dict? && keys <= v.m.Keys && keys <= w.m.Keys
    requires forall k :: k in keys ==> Leaves(Under(path, k), v.m[k]) == Leaves(Under(path, k), w.m[k])
    ensures DictLeaves(path, v, keys) == DictLeaves(path, w, keys)
    decreases |keys|
  {
    if keys != {} {
      DictLeavesAgree(path, v, w, keys - {Pick(keys)});
    }
  }

  lemma DictIsItsLeaves(path: Path, m: Entries)
    ensures Leaves(path, Dict(m)) == DictLeaves(path, Dict(m), m.Keys)
  {
  }

  /** Setting a key trades the leaves it had for the leaves it gets. */
  lemma LeavesSet(path: Path, m: Entries, key: string, x: Item)
    ensures var rest := DictLeaves(path, Dict(m), m.Keys - {key});
            && Leaves(path, Dict(m[key := x])) == rest + Leaves(Under(path, key), x)
            && (key in m ==> Leaves(path, Dict(m)) == rest + Leaves(Under(path, key), m[key]))
            && (key !in m ==> Leaves(path, Dict(m)) == rest)
  {
    hide Leaves, DictLeaves;
    var after := m[key := x];
    DictIsItsLeaves(path, m);
    DictIsItsLeaves(path, after);
    DictLeavesOne(path, Dict(after), after.Keys, key);
    assert after.Keys - {key} == m.Keys - {key};
    DictLeavesAgree(path, Dict(after), Dict(m), m.Keys - {key});
    if key in m {
      DictLeavesOne(path, Dict(m), m.Keys, key);
    } else {
      assert m.Keys - {key} == m.Keys;
    }
  }

  /** A successful insertion adds the leaves of what it inserts, at the inserted path. */
  lemma {:induction false} InsertLeaves(path: Path, node: Entries, segs: seq<string>, leaf: Item)
    requires segs != [] && Insert(node, segs, leaf).1
    ensures Leaves(path, Dict(Insert(node, segs, leaf).0)) == Leaves(path, Dict(node)) + Leaves(UnderAll(path, segs), leaf)
    decreases |segs|
  {
    hide Leaves, DictLeaves;
    var head := segs[0];
    if |segs| == 1 {
      assert segs[1..] == [];
      LeavesSet(path, node, head, leaf);
    } else {
      var inner := if head in node then node[head].m else map[];
      InsertLeaves(Under(path, head), inner, segs[1..], leaf);
      var child := Insert(inner, segs[1..], leaf).0;
      LeavesSet(path, node, head, Dict(child));
      EmptyHasNoLeaves(Under(path, head));
    }
  }

  lemma EmptyHasNoLeaves(path: Path)
    ensures Leaves(path, Dict(map[])) == multiset{}
  {
  }

  lemma {:induction false} FoldDottedLeaves(path: Path, out: Entries, folded: Entries, keys: set<string>)
    requires keys <= folded.Keys && keys !! out.Keys && forall k :: k in keys ==> Folds(k)
    ensures Leaves(path, Dict(FoldDotted(out, folded, keys)))
         == Leaves(path, Dict(out)) + DictLeaves(path, Dict(folded), keys)
    decreases |keys|
  {
    hide Leaves, Insert;
    if keys != {} {
      var k := Least(keys);
      var segs := Split(k, '.');
      var (next, ok) := Insert(out, segs, folded[k]);
      DictLeavesOne(path, Dict(folded), keys, k);
      SegmentsOfFolding(k);
      UnderJoined(path, segs);
      InsertFailsCleanly(out, segs, folded[k]);
      if ok {
        InsertLeaves(path, out, segs, folded[k]);
        InsertAddsHead(out, segs, folded[k]);
        NoDotDoesNotFold(segs[0]);
        FoldDottedLeaves(path, next, folded, keys - {k});
      } else {
        LeavesSet(path, out, k, folded[k]);
        assert out.Keys - {k} == out.Keys;
        FoldDottedLeaves(path, out[k := folded[k]], folded, keys - {k});
      }
    }
  }

  lemma InsertAddsHead(node: Entries, segs: seq<string>, leaf: Item)
    requires segs != []
    ensures Insert(node, segs, leaf).0.Keys <= node.Keys + {segs[0]}
  {
  }

  lemma {:induction false} DictLeavesSplit(path: Path, v: Item, keys: set<string>, some: set<string>)
    requires v.Dict? && keys <= v.m.Keys && some <= keys
    ensures DictLeaves(path, v, keys) == DictLeaves(path, v, keys - some) + DictLeaves(path, v, some)
    decreases |some|
  {
    hide Leaves;
    if some == {} {
      assert keys - some == keys;
    } else {
      var k := Pick(some);
      DictLeavesOne(path, v, keys, k);
      DictLeavesSplit(path, v, keys - {k}, some - {k});
      assert keys - {k} - (some - {k}) == keys - some;
    }
  }

  /** No leaf is lost, invented, moved or changed. */
  lemma {:induction false} UnflattenKeepsLeaves(path: Path, v: Item)
    ensures Leaves(path, Unflatten(v)) == Leaves(path, v)
    decreases v, 0
  {
    match v {
      case Scalar(_) =>
      case List(items) =>
        var after := seq(|items|, i requires 0 <= i < |items| => Unflatten(items[i]));
        UnflattenKeepsListLeaves(path, items, after, |items|);
      case Dict(m) =>
        var folded := map k | k in m :: Unflatten(m[k]);
        forall k | k in m ensures Leaves(Under(path, k), folded[k]) == Leaves(Under(path, k), m[k]) {
          UnflattenKeepsLeaves(Under(path, k), m[k]);
        }
        DictUnflattens(path, m, folded);
    }
  }

  lemma DictUnflattens(path: Path, m: Entries, folded: Entries)
    requires folded.Keys == m.Keys
    requires forall k :: k in m ==> Leaves(Under(path, k), folded[k]) == Leaves(Under(path, k), m[k])
    ensures Leaves(path, Dict(FoldDotted(Plain(folded), folded, Dotted(folded)))) == Leaves(path, Dict(m))
  {
    FoldDottedLeaves(path, Plain(folded), folded, Dotted(folded));
    assert Plain(folded).Keys == folded.Keys - Dotted(folded);
    DictLeavesAgree(path, Dict(Plain(folded)), Dict(folded), folded.Keys - Dotted(folded));
    DictLeavesSplit(path, Dict(folded), folded.Keys, Dotted(folded));
    DictLeavesAgree(path, Dict(folded), Dict(m), m.Keys);
  }

  lemma {:induction false} UnflattenKeepsListLeaves(path: Path, items: seq<Item>, after: seq<Item>, n: nat)
    requires n <= |items| == |after| && forall i :: 0 <= i < |items| ==> after[i] == Unflatten(items[i])
    ensures ListLeaves(path, after, n) == ListLeaves(path, items, n)
    decreases items, n
  {
    if n > 0 {
      UnflattenKeepsListLeaves(path, items, after, n - 1);
      UnflattenKeepsLeaves(path + [Position(n)], items[n - 1]);
    }
  }
}
