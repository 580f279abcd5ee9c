/** What a cascading purge means for both tiers. It follows, and is held back by, the rows of the
    primary only: `g` is what they name, `s` what the rows of the spill name. */
module TierReferences {
  import Cardinality
  import opened ReferenceGraph

  /** No row of this tier names any of these hashes. */
  ghost predicate NothingNames(g: Graph, hashes: set<string>) {
    forall k, n :: n in hashes ==> !Names(g, k, n)
  }

  // ---------- Markers that come to point at nothing ----------

  lemma NamesWithin(g: Graph, k: string, hashes: set<string>)
    requires k in g
    ensures g[k] * hashes <= {k} <==> forall n :: n in hashes ==> !Names(g, k, n)
  {
    if g[k] * hashes <= {k} {
      forall n | n in hashes ensures !Names(g, k, n) {
        assert n in g[k] ==> n in g[k] * hashes;
      }
    } else {
      var n :| n in g[k] * hashes && n !in {k};
      assert Names(g, k, n);
    }
  }

  /** After a purge that leaves `left` in the spill, no row of either tier names an erased nested
      hash exactly when no row left in the spill does: the primary never dangles. */
  lemma DanglingExactly(g: Graph, left: Graph, top: string, owned: set<string>, nested: set<string>)
    requires OwnedBy(g, top, owned) && nested <= owned - {top}
    ensures NothingNames(g - owned, nested)
    ensures NothingNames(g - owned, nested) && NothingNames(left, nested) <==>
              forall k :: k in left ==> left[k] * nested <= {k}
  {
    forall k, n | n in nested ensures !Names(g - owned, k, n) {
      if Names(g, k, n) {
        OwnedNamedOnlyWithin(g, top, owned, k, n);
      }
    }
    forall k | k in left ensures left[k] * nested <= {k} <==> forall n :: n in nested ==> !Names(left, k, n) {
      NamesWithin(left, k, nested);
    }
  }

  /** In terms of the spill before the purge, when no erasure there fails. */
  lemma DanglingBeforehand(g: Graph, s: Graph, top: string, owned: set<string>)
    requires OwnedBy(g, top, owned)
    ensures NothingNames(g - owned, owned - {top}) && NothingNames(s - owned, owned - {top}) <==>
              forall k :: k in s && k !in owned ==> s[k] !! owned - {top}
  {
    DanglingExactly(g, s - owned, top, owned, owned - {top});
    forall k | k in s && k !in owned ensures s[k] * (owned - {top}) <= {k} <==> s[k] !! owned - {top} {
      var both := s[k] * (owned - {top});
      assert k !in both;
      if both <= {k} {
        assert both == {};
      }
    }
  }

  // ---------- Hashes that should have gone too ----------

  /** Some row of a member, in either tier, names `n`, and of the unexpired rows of the primary
      none but members do. */
  ghost predicate Taken(g: Graph, s: Graph, live: set<string>, members: set<string>, n: string) {
    && (exists m :: m in members && (Names(g, m, n) || Names(s, m, n)))
    && (forall k :: k in live && Names(g, k, n) ==> k in members)
  }

  ghost predicate TreeClosed(g: Graph, s: Graph, live: set<string>, members: set<string>) {
    forall n :: Taken(g, s, live, members, n) ==> n in members
  }

  /** The whole tree of `top`: the least set that holds it and whatever its rows name, in whichever
      tier they are, and no other unexpired row of the primary does. */
  ghost predicate Tree(g: Graph, s: Graph, live: set<string>, top: string, tree: set<string>) {
    && top in tree && TreeClosed(g, s, live, tree)
    && forall w: set<string> :: TreeClosed(g, s, live, w) && top in w ==> tree <= w
  }

  lemma TreesMeet(g: Graph, s: Graph, live: set<string>, a: set<string>, b: set<string>)
    requires TreeClosed(g, s, live, a) && TreeClosed(g, s, live, b)
    ensures TreeClosed(g, s, live, a * b)
  {
    forall n | Taken(g, s, live, a * b, n) ensures n in a * b {
      assert Taken(g, s, live, a, n) && Taken(g, s, live, b, n);
    }
  }

  /** There is such a set: below any closed one. */
  lemma {:induction false} TreeBelow(g: Graph, s: Graph, live: set<string>, top: string, w: set<string>) returns (tree: set<string>)
    requires TreeClosed(g, s, live, w) && top in w
    ensures Tree(g, s, live, top, tree)
    decreases |w|
  {
    if Tree(g, s, live, top, w) {
      tree := w;
    } else {
      var v: set<string> :| TreeClosed(g, s, live, v) && top in v && !(w <= v);
      TreesMeet(g, s, live, w, v);
      var x :| x in w && x !in v;
      assert w * v <= w - {x};
      Cardinality.SubsetSize(w * v, w - {x});
      tree := TreeBelow(g, s, live, top, w * v);
    }
  }

  lemma TreeExists(g: Graph, s: Graph, live: set<string>, top: string) returns (tree: set<string>)
    ensures Tree(g, s, live, top, tree)
  {
    var all := {top} + (set k, n | k in g && n in g[k] :: n) + (set k, n | k in s && n in s[k] :: n);
    tree := TreeBelow(g, s, live, top, all);
  }

  /** A purge erases part of the tree, and all of it exactly when each surviving name of an erased
      row, of whichever tier, is named by an unexpired row of the primary that survives. For the
      names of erased primary rows only an expired row can stand in the way. */
  lemma WholeTreeExactly(g: Graph, s: Graph, live: set<string>, top: string, owned: set<string>, tree: set<string>)
    requires OwnedBy(g, top, owned) && Tree(g, s, live, top, tree)
    ensures owned <= tree
    ensures owned == tree <==>
              forall d, n :: d in owned && n !in owned && (Names(g, d, n) || Names(s, d, n)) ==>
                exists k :: k in live && k !in owned && Names(g, k, n)
  {
    forall n | Orphaned(g, tree, n) ensures n in tree {
      assert Taken(g, s, live, tree, n);
    }
    if forall d, n :: d in owned && n !in owned && (Names(g, d, n) || Names(s, d, n)) ==>
         exists k :: k in live && k !in owned && Names(g, k, n) {
      assert TreeClosed(g, s, live, owned);
    } else if owned == tree {
      var d, n :| d in owned && n !in owned && (Names(g, d, n) || Names(s, d, n))
                  && !exists k :: k in live && k !in owned && Names(g, k, n);
      assert Taken(g, s, live, tree, n);
      assert false;
    }
  }

  /** A hash no row of the primary holds takes nothing with it. That is its whole tree exactly when
      an unexpired row of the primary names each hash its spilled row names. */
  lemma SpilledTopExactly(g: Graph, s: Graph, live: set<string>, top: string, owned: set<string>, tree: set<string>)
    requires OwnedBy(g, top, owned) && Tree(g, s, live, top, tree) && top !in g
    ensures owned == {top}
    ensures owned == tree <==> forall n :: Names(s, top, n) ==> exists k :: k in live && Names(g, k, n)
  {
    assert Closed(g, {top});
    WholeTreeExactly(g, s, live, top, owned, tree);
  }

  /** Nor has a spilled row any say in whether a hash it names goes: only rows of the primary do. */
  lemma ErasedExactly(g: Graph, top: string, owned: set<string>, n: string)
    requires OwnedBy(g, top, owned)
    ensures n in owned <==> n == top || Orphaned(g, owned - {n}, n)
  {
    if n in owned && n != top {
      OwnedIsOrphaned(g, top, owned, n);
    } else if n !in owned {
      assert owned - {n} == owned;
    }
  }

  /** Where every row of the primary is unexpired and every erased row was one of the primary's
      only, nothing is left behind. */
  lemma FreshPrimaryTakesTheTree(g: Graph, s: Graph, live: set<string>, top: string, owned: set<string>, tree: set<string>)
    requires OwnedBy(g, top, owned) && Tree(g, s, live, top, tree)
    requires g.Keys <= live && s.Keys !! owned
    ensures owned == tree
  {
    forall d, n | d in owned && n !in owned && (Names(g, d, n) || Names(s, d, n))
      ensures exists k :: k in live && k !in owned && Names(g, k, n)
    {
      SurvivorsStillNamed(g, top, owned, d, n);
    }
    WholeTreeExactly(g, s, live, top, owned, tree);
  }

  /** The report names every surviving hash that an erased row of either tier named exactly when
      erased rows of the primary named all that the spilled ones did. */
  lemma ReportedNamesExactly(g: Graph, s: Graph, reliable: bool, top: string, owned: set<string>, out: CascadeOutcome)
    requires PurgeReported(g, s.Keys, reliable, top, owned, out)
    ensures (forall d, n :: d in owned && n !in owned && (Names(g, d, n) || Names(s, d, n)) ==> n in out.nestedSharedSkipped)
       <==> (forall d, n :: d in owned && n !in owned && Names(s, d, n) ==> exists k :: k in owned && Names(g, k, n))
  {
  }
}
