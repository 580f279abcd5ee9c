/** Which stored entries a purge takes with it. A graph maps each hash the primary holds, expired
    or not, to the marker hashes its stored text names; the rows of the spill have no part in it.
    `TierReferences` says what that means for both tiers. */
module ReferenceGraph {

  type Graph = map<string, set<string>>

  predicate Names(g: Graph, k: string, n: string) {
    k in g && n in g[k] && k != n
  }

  /** Some member names `n`, and so does nothing but members. */
  ghost predicate Orphaned(g: Graph, members: set<string>, n: string) {
    && (exists m :: m in members && Names(g, m, n))
    && (forall k :: Names(g, k, n) ==> k in members)
  }

  ghost predicate Closed(g: Graph, members: set<string>) {
    forall n :: Orphaned(g, members, n) ==> n in members
  }

  /** The least closed set containing `top`: what a cascading purge of `top` is to erase. */
  ghost predicate OwnedBy(g: Graph, top: string, owned: set<string>) {
    && top in owned && Closed(g, owned)
    && forall w: set<string> :: Closed(g, w) && top in w ==> owned <= w
  }

  /** The graph and the named hash fix the owned set, so no traversal order can matter. */
  lemma OwnedSetUnique(g: Graph, top: string, a: set<string>, b: set<string>)
    requires OwnedBy(g, top, a) && OwnedBy(g, top, b)
    ensures a == b
  {
    assert a <= b && b <= a;
  }

  /** A tear-down of `h` is under way: `seen` was visited, of which `before` earlier, and the
      names of `h` in `todo` are still to be looked at. */
  ghost predicate Tearing(g: Graph, before: set<string>, seen: set<string>, h: string, todo: set<string>) {
    && before <= seen && h in seen
    && (forall d, n :: d in seen - before && Names(g, d, n) && n !in seen && !(d == h && n in todo) ==>
                         exists k :: k !in seen && Names(g, k, n))
    && (forall w: set<string> :: Closed(g, w) && before <= w && h in w ==> seen <= w)
  }

  /** The tear-down of `h` is complete. */
  ghost predicate Torn(g: Graph, before: set<string>, after: set<string>, h: string) {
    Tearing(g, before, after, h, {})
  }

  lemma TearingStarts(g: Graph, before: set<string>, h: string, todo: set<string>)
    requires h !in before
    requires forall n :: Names(g, h, n) ==> n in todo
    ensures Tearing(g, before, before + {h}, h, todo)
  {
  }

  /** A name already visited, or still named by an unvisited entry, is left alone. */
  lemma TearingSkips(g: Graph, before: set<string>, seen: set<string>, h: string, todo: set<string>, rest: set<string>, n: string)
    requires Tearing(g, before, seen, h, todo) && todo - {n} <= rest
    requires n in seen || exists k :: k !in seen && Names(g, k, n)
    ensures Tearing(g, before, seen, h, rest)
  {
  }

  /** A name no unvisited entry shares is torn down in turn, on what is left of the graph. */
  lemma TearingDescends(g: Graph, before: set<string>, seen: set<string>, h: string, todo: set<string>,
                        rest: set<string>, n: string, after: set<string>)
    requires Tearing(g, before, seen, h, todo) && todo - {n} <= rest && Names(g, h, n) && n !in seen
    requires forall k :: Names(g, k, n) ==> k in seen
    requires Torn(g - seen, seen, after, n)
    ensures Tearing(g, before, after, h, rest)
  {
    forall d, x | d in after - before && Names(g, d, x) && x !in after && !(d == h && x in rest)
      ensures exists k :: k !in after && Names(g, k, x)
    {
      if d in seen {
        var k :| k !in seen && Names(g, k, x);
        if k in after {
          assert Names(g - seen, k, x);
          var k' :| k' !in after && Names(g - seen, k', x);
          assert Names(g, k', x);
        }
      } else {
        assert Names(g - seen, d, x);
        var k :| k !in after && Names(g - seen, k, x);
        assert Names(g, k, x);
      }
    }
    forall w: set<string> | Closed(g, w) && before <= w && h in w
      ensures after <= w
    {
      assert seen <= w;
      assert Orphaned(g, w, n);
      RestClosed(g, seen, w);
    }
  }

  lemma RestClosed(g: Graph, seen: set<string>, w: set<string>)
    requires Closed(g, w) && seen <= w
    ensures Closed(g - seen, w)
  {
    forall n | Orphaned(g - seen, w, n)
      ensures n in w
    {
      var m :| m in w && Names(g - seen, m, n);
      assert Names(g, m, n);
      forall k | Names(g, k, n)
        ensures k in w
      {
        assert k !in seen ==> Names(g - seen, k, n);
      }
      assert Orphaned(g, w, n);
    }
  }

  /** A complete tear-down from scratch visits exactly the owned set. */
  lemma TornIsOwned(g: Graph, after: set<string>, top: string)
    requires Torn(g, {}, after, top)
    ensures OwnedBy(g, top, after)
  {
    forall n | Orphaned(g, after, n)
      ensures n in after
    {
      var m :| m in after && Names(g, m, n);
      assert n !in after ==> exists k :: k !in after && Names(g, k, n);
    }
  }

  // ---------- What a purge reports ----------

  /** What one cascading purge did. */
  datatype CascadeOutcome = CascadeOutcome(topDeleted: bool, nestedDeleted: seq<string>, nestedSharedSkipped: seq<string>)

  function Without(xs: seq<string>, drop: set<string>): (r: seq<string>)
    ensures forall x :: x in r <==> x in xs && x !in drop
  {
    if xs == [] then [] else if xs[0] in drop then Without(xs[1..], drop) else [xs[0]] + Without(xs[1..], drop)
  }

  function Members(xs: seq<string>): set<string> {
    set x | x in xs
  }

  ghost predicate NoRepeats(xs: seq<string>) {
    forall i, j :: 0 <= i < j < |xs| ==> xs[i] != xs[j]
  }

  /** The running report of a tear-down: `deleted` holds, once each, the nested hashes erased,
      and `skipped` the names met that an unvisited entry still held at that point. */
  ghost predicate Gathered(g: Graph, spilled: set<string>, reliable: bool, before: set<string>, seen: set<string>,
                           h: string, todo: set<string>, deleted: seq<string>, skipped: seq<string>) {
    && NoRepeats(deleted)
    && (forall x :: x in deleted ==> x in seen && x !in before && x != h && (x in g || x in spilled))
    && (forall x :: x in seen && x !in before && x != h && (x in g || (reliable && x in spilled)) ==> x in deleted)
    && (forall d, x :: d in seen && d !in before && Names(g, d, x) && x !in seen && !(d == h && x in todo) ==> x in skipped)
    && (forall x :: x in skipped ==> x !in before && x != h && exists d :: d in seen && d !in before && Names(g, d, x))
  }

  ghost predicate Progress(g: Graph, spilled: set<string>, reliable: bool, before: set<string>, seen: set<string>,
                           h: string, todo: set<string>, deleted: seq<string>, skipped: seq<string>) {
    Tearing(g, before, seen, h, todo) && Gathered(g, spilled, reliable, before, seen, h, todo, deleted, skipped)
  }

  /** The report of a complete tear-down. */
  ghost predicate Reported(g: Graph, spilled: set<string>, reliable: bool, before: set<string>, after: set<string>,
                           h: string, out: CascadeOutcome) {
    && Progress(g, spilled, reliable, before, after, h, {}, out.nestedDeleted, out.nestedSharedSkipped)
    && (forall x :: x in out.nestedDeleted ==> x !in out.nestedSharedSkipped)
    && (h in g ==> out.topDeleted)
    && (out.topDeleted ==> h in g || h in spilled)
    && (reliable && h in spilled ==> out.topDeleted)
  }

  lemma MembersAre(xs: seq<string>)
    ensures forall x :: x in xs <==> x in Members(xs)
    ensures xs == [] ==> Members(xs) == {}
  {
  }

  /** The closing filter of a tear-down: what some branch skipped and a later one erased is
      reported as erased only. */
  lemma ReportCloses(g: Graph, spilled: set<string>, reliable: bool, before: set<string>, after: set<string>, h: string,
                     topDeleted: bool, deleted: seq<string>, skipped: seq<string>)
    requires Progress(g, spilled, reliable, before, after, h, {}, deleted, skipped)
    requires (h in g ==> topDeleted) && (topDeleted ==> h in g || h in spilled) && (reliable && h in spilled ==> topDeleted)
    ensures Reported(g, spilled, reliable, before, after, h,
                     CascadeOutcome(topDeleted, deleted, Without(skipped, Members(deleted))))
  {
  }

  lemma ProgressStarts(g: Graph, spilled: set<string>, reliable: bool, before: set<string>, h: string, todo: set<string>)
    requires h !in before && forall n :: Names(g, h, n) ==> n in todo
    ensures Progress(g, spilled, reliable, before, before + {h}, h, todo, [], [])
  {
    TearingStarts(g, before, h, todo);
  }

  /** The name was visited already. */
  lemma ProgressSkips(g: Graph, spilled: set<string>, reliable: bool, before: set<string>, seen: set<string>, h: string,
                      todo: set<string>, rest: set<string>, deleted: seq<string>, skipped: seq<string>, n: string)
    requires Progress(g, spilled, reliable, before, seen, h, todo, deleted, skipped) && n in seen && todo - {n} <= rest
    ensures Progress(g, spilled, reliable, before, seen, h, rest, deleted, skipped)
  {
    TearingSkips(g, before, seen, h, todo, rest, n);
  }

  /** The name is shared with an unvisited entry. */
  lemma ProgressShares(g: Graph, spilled: set<string>, reliable: bool, before: set<string>, seen: set<string>, h: string,
                       todo: set<string>, rest: set<string>, deleted: seq<string>, skipped: seq<string>, n: string)
    requires Progress(g, spilled, reliable, before, seen, h, todo, deleted, skipped) && todo - {n} <= rest
    requires h !in before && n !in seen && Names(g, h, n) && exists k :: k !in seen && Names(g, k, n)
    ensures Progress(g, spilled, reliable, before, seen, h, rest, deleted, skipped + [n])
  {
    TearingSkips(g, before, seen, h, todo, rest, n);
  }

  /** The name is torn down in turn. */
  lemma ProgressDescends(g: Graph, spilled: set<string>, reliable: bool, before: set<string>, seen: set<string>, h: string,
                         todo: set<string>, rest: set<string>, deleted: seq<string>, skipped: seq<string>, n: string,
                         left: set<string>, after: set<string>, child: CascadeOutcome)
    requires Progress(g, spilled, reliable, before, seen, h, todo, deleted, skipped)
    requires seen <= after && n !in seen && todo - {n} <= rest && Names(g, h, n)
    requires forall k :: Names(g, k, n) ==> k in seen
    requires left <= spilled && forall x :: x in spilled && x !in seen ==> x in left
    requires Reported(g - seen, left, reliable, seen, after, n, child)
    ensures Progress(g, spilled, reliable, before, after, h, rest,
                     deleted + (if child.topDeleted then [n] else []) + child.nestedDeleted,
                     skipped + child.nestedSharedSkipped)
  {
    TearingDescends(g, before, seen, h, todo, rest, n, after);
    GatheredDescends(g, spilled, reliable, before, seen, h, todo, rest, deleted, skipped, n, left, after, child);
  }

  lemma GatheredDescends(g: Graph, spilled: set<string>, reliable: bool, before: set<string>, seen: set<string>, h: string,
                         todo: set<string>, rest: set<string>, deleted: seq<string>, skipped: seq<string>, n: string,
                         left: set<string>, after: set<string>, child: CascadeOutcome)
    requires Gathered(g, spilled, reliable, before, seen, h, todo, deleted, skipped)
    requires before <= seen <= after && h in seen && n !in seen && n in after && todo - {n} <= rest
    requires left <= spilled && forall x :: x in spilled && x !in seen ==> x in left
    requires Reported(g - seen, left, reliable, seen, after, n, child)
    ensures Gathered(g, spilled, reliable, before, after, h, rest,
                     deleted + (if child.topDeleted then [n] else []) + child.nestedDeleted,
                     skipped + child.nestedSharedSkipped)
  {
    var remaining := g - seen;
    var deleted' := deleted + (if child.topDeleted then [n] else []) + child.nestedDeleted;
    var skipped' := skipped + child.nestedSharedSkipped;
    assert forall x :: x in deleted' <==> x in deleted || (child.topDeleted && x == n) || x in child.nestedDeleted;
    assert forall x :: x in skipped' <==> x in skipped || x in child.nestedSharedSkipped;
    forall x | x in skipped'
      ensures x !in before && x != h && exists d :: d in after && d !in before && Names(g, d, x)
    {
      if x in skipped {
        var d :| d in seen && d !in before && Names(g, d, x);
      } else {
        var d :| d in after && d !in seen && Names(remaining, d, x);
        assert Names(g, d, x);
      }
    }
    forall d, x | d in after && d !in before && Names(g, d, x) && x !in after && !(d == h && x in rest)
      ensures x in skipped'
    {
      assert d !in seen ==> Names(remaining, d, x);
    }
    NoRepeatsJoin(deleted, if child.topDeleted then [n] else [], child.nestedDeleted);
  }

  lemma NoRepeatsJoin(a: seq<string>, b: seq<string>, c: seq<string>)
    requires NoRepeats(a) && NoRepeats(b) && NoRepeats(c)
    requires forall x :: x in b ==> x !in a
    requires forall x :: x in c ==> x !in a && x !in b
    ensures NoRepeats(a + b + c)
  {
    NoRepeatsJoinTwo(a, b);
    NoRepeatsJoinTwo(a + b, c);
  }

  lemma NoRepeatsJoinTwo(a: seq<string>, b: seq<string>)
    requires NoRepeats(a) && NoRepeats(b) && forall x :: x in b ==> x !in a
    ensures NoRepeats(a + b)
  {
    forall i, j | 0 <= i < j < |a + b|
      ensures (a + b)[i] != (a + b)[j]
    {
      if i < |a| <= j {
        assert b[j - |a|] in b;
      }
    }
  }

  // ---------- What a purge leaves behind ----------

  /** Dropping a hash that is not orphaned keeps a closed set closed. */
  lemma ClosedWithout(g: Graph, owned: set<string>, n: string)
    requires Closed(g, owned) && !Orphaned(g, owned - {n}, n)
    ensures Closed(g, owned - {n})
  {
    forall x | Orphaned(g, owned - {n}, x)
      ensures x in owned - {n}
    {
      var m :| m in owned - {n} && Names(g, m, x);
      assert Orphaned(g, owned, x);
    }
  }

  /** An owned hash other than the purged one is named by members, and by nothing but members. */
  lemma OwnedIsOrphaned(g: Graph, top: string, owned: set<string>, n: string)
    requires OwnedBy(g, top, owned) && n in owned && n != top
    ensures Orphaned(g, owned - {n}, n)
  {
    if !Orphaned(g, owned - {n}, n) {
      ClosedWithout(g, owned, n);
      assert false;
    }
  }

  /** So nothing that survives in the primary names an erased nested hash. */
  lemma OwnedNamedOnlyWithin(g: Graph, top: string, owned: set<string>, k: string, n: string)
    requires OwnedBy(g, top, owned) && n in owned && n != top && Names(g, k, n)
    ensures k in owned
  {
    OwnedIsOrphaned(g, top, owned, n);
  }

  /** Entries that name each other round a cycle protect one another: a purge of anything else
      never erases them. */
  lemma CyclesSurvive(g: Graph, top: string, owned: set<string>, cycle: set<string>)
    requires OwnedBy(g, top, owned) && top !in cycle
    requires forall n :: n in cycle ==> exists k :: k in cycle && Names(g, k, n)
    ensures owned !! cycle
  {
    forall x | Orphaned(g, owned - cycle, x)
      ensures x in owned - cycle
    {
      var m :| m in owned - cycle && Names(g, m, x);
      assert Orphaned(g, owned, x);
    }
    assert Closed(g, owned - cycle);
  }

  /** Every survivor an erased row of the primary named is still named by another row of the
      primary, though that may have expired. */
  lemma SurvivorsStillNamed(g: Graph, top: string, owned: set<string>, d: string, n: string)
    requires OwnedBy(g, top, owned) && d in owned && Names(g, d, n) && n !in owned
    ensures exists k :: k !in owned && k != n && Names(g, k, n)
  {
    assert !Orphaned(g, owned, n);
  }

  /** A top-level purge reports exactly what it erased: once each, every owned nested hash some
      tier held; and it names as shared every surviving hash an erased row of the primary named. */
  ghost predicate PurgeReported(g: Graph, spilled: set<string>, reliable: bool, top: string, owned: set<string>,
                                out: CascadeOutcome) {
    && OwnedBy(g, top, owned)
    && NoRepeats(out.nestedDeleted)
    && (forall x :: x in out.nestedDeleted ==> x in owned && x != top && (x in g || x in spilled))
    && (forall x :: x in owned && x != top && (x in g || (reliable && x in spilled)) ==> x in out.nestedDeleted)
    && (forall x :: x in out.nestedSharedSkipped ==> x !in out.nestedDeleted && x != top && exists d :: d in owned && Names(g, d, x))
    && (forall x :: x !in owned ==> (x in out.nestedSharedSkipped <==> exists d :: d in owned && Names(g, d, x)))
    && (top in g ==> out.topDeleted) && (out.topDeleted ==> top in g || top in spilled)
    && (reliable && top in spilled ==> out.topDeleted)
  }

  lemma ReportIsExact(g: Graph, spilled: set<string>, reliable: bool, top: string, after: set<string>, out: CascadeOutcome)
    requires Reported(g, spilled, reliable, {}, after, top, out)
    ensures PurgeReported(g, spilled, reliable, top, after, out)
  {
    TornIsOwned(g, after, top);
  }
}
