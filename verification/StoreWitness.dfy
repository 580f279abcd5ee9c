/** The runs on which promises of the store fail, made on a store by its own methods. */
module StoreWitness {
  import opened Wrappers
  import opened StoreTables
  import opened ReferenceGraph
  import opened CompressionStore
  import opened StoreRuns

  /** A caller's own key of this form is taken as it is. */
  lemma OwnKeyIsTaken(c: char, original: string, digest: string -> string)
    requires 'a' <= c <= 'f'
    ensures KeyFor(original, Some([c, c, c, c, c, c]), digest) == Ok([c, c, c, c, c, c])
  {
    var key := [c, c, c, c, c, c];
    assert LowerHex(key) == key;
  }

  lemma DemotedUnique(before: Table, a: Table, b: Table, base: Table, kept: Table)
    requires Demoted(before, a, base, kept, true, true) && Demoted(before, b, base, kept, true, true)
    ensures a == b
  {
    forall h ensures h in a <==> h in b {
    }
    forall h | h in a ensures a[h] == b[h] {
    }
  }

  /** With a spill that never faults, a store leaves no choice. */
  lemma PutUnique(s: Tiers, h: string, e: Entry, now: real, a: Tiers, b: Tiers)
    requires Step(C2, s, Put(h, e), now, a) && Step(C2, s, Put(h, e), now, b)
    ensures a == b
  {
    var base := Unexpired(s.backend, now);
    DemotedUnique(s.spill, a.spill, b.spill, base, Newest(base, 2));
  }

  /** Stores one row under its key: the state moves on as the run says. */
  method PutRow(store: Store, ghost s: Tiers, e: Entry, ghost s': Tiers)
    requires store.Valid() && store.cfg == C2 && store.Now() == s && e.ttl > 0
    requires KeyFor(e.original, Some(e.hash), store.digest) == Ok(e.hash)
    requires e.retrievalCount == 0 && e.searchQueries == []
    requires Step(C2, s, Put(e.hash, e), e.createdAt, s')
    modifies store
    ensures store.Valid() && store.Now() == s'
  {
    hide Step, Store.Valid, Store.Now, KeyFor;
    assert store.Accepts(e.original, Some(e.ttl), Some(e.hash));
    assert store.NewEntry(e.hash, e.original, e.compressed, Some(e.ttl), e.createdAt) == e;
    var r := store.Store(e.original, e.compressed, Some(e.ttl), Some(e.hash), false, e.createdAt, e.createdAt);
    PutUnique(s, e.hash, e, e.createdAt, store.Now(), s');
  }

  /** Three stores under accepted keys demote the first row of a store of capacity two, whose spill
      never faults. */
  method DemoteTheFirst(digest: string -> string, hashesInText: string -> seq<string>) returns (store: Store)
    ensures fresh(store) && store.Valid() && store.cfg == C2 && store.Now() == S3
    ensures store.digest == digest && store.hashesInText == hashesInText
  {
    hide Step, Store.Valid, Store.Now, KeyFor;
    store := new Store(C2, 100, digest, hashesInText);
    OwnKeyIsTaken('a', "A", digest);
    OwnKeyIsTaken('b', "B", digest);
    OwnKeyIsTaken('d', "D", digest);
    FirstTwoPuts();
    ThirdPut();
    PutRow(store, S0, A0, S1);
    PutRow(store, S1, B1, S2);
    PutRow(store, S2, D2, S3);
  }

  /** A fourth one brings it to the state where a short-lived row hides a long-lived one. */
  method ShadowTheCopy(digest: string -> string, hashesInText: string -> seq<string>) returns (store: Store)
    ensures fresh(store) && store.Valid() && store.cfg == C2 && store.Now() == S4 && store.digest == digest
  {
    hide Step, Store.Valid, Store.Now, KeyFor;
    store := DemoteTheFirst(digest, hashesInText);
    OwnKeyIsTaken('a', "A", digest);
    FourthPut();
    PutRow(store, S3, A3, S4);
  }

  /** `retrieve`, in terms of the store's tiers. */
  method RetrieveRow(store: Store, ghost s: Tiers, h: string, now: real) returns (r: Option<Entry>)
    requires store.Valid() && store.cfg == C2 && store.Now() == s
    modifies store
    ensures store.Valid() && store.cfg == C2 && Step(C2, s, Get(h, None), now, store.Now())
    ensures r.Some? <==> Served(s.backend, s.spill, h, now).Some?
    ensures r.Some? ==> r.value.original == Served(s.backend, s.spill, h, now).value.original
  {
    hide Step, Store.Valid, Served;
    r := store.Retrieve(h, None, now);
  }

  /** There, at clock 10, the read-back finds the hash, `retrieve` misses it, and the same
      `retrieve` repeated hits. */
  method ReadBackAndRetrieve(digest: string -> string, hashesInText: string -> seq<string>)
    returns (found: bool, first: Option<Entry>, second: Option<Entry>)
    ensures found && first.None? && second.Some? && second.value.original == "A"
  {
    hide Step, Store.Valid, AnyTierHolds, Served;
    var store := ShadowTheCopy(digest, hashesInText);
    found := store.ExistsAnyTier(KEY_A, 10.0);
    first := RetrieveRow(store, S4, KEY_A, 10.0);
    ghost var reaped := store.Now();
    ReadBackAndRetrievePart(reaped);
    second := RetrieveRow(store, reaped, KEY_A, 10.0);
  }

  /** A colliding store under the caller's own key, in terms of the store's tiers. */
  method CollideRow(store: Store, ghost s: Tiers) returns (stored: Result<string, StoreError>)
    requires store.Valid() && store.cfg == C2 && store.Now() == s
    requires KeyFor("other", Some(KEY_A), store.digest) == Ok(KEY_A)
    modifies store
    ensures store.Valid() && store.cfg == C2 && stored == Ok(KEY_A)
    ensures Step(C2, s, Put(KEY_A, Row(KEY_A, "other", 4.0, 100)), 4.0, store.Now())
  {
    hide Step, Store.Valid, KeyFor;
    stored := store.Store("other", "", Some(100), Some(KEY_A), false, 4.0, 4.0);
  }

  /** And there a collision leaves the first content served, under the key of the second. */
  method CollideAndRetrieve(digest: string -> string, hashesInText: string -> seq<string>)
    returns (stored: Result<string, StoreError>, got: Option<Entry>)
    ensures stored == Ok(KEY_A) && got.Some? && got.value.original == "A"
  {
    hide Step, Store.Valid, Store.Now, Served, KeyFor;
    var store := ShadowTheCopy(digest, hashesInText);
    OwnKeyIsTaken('a', "other", digest);
    stored := CollideRow(store, S4);
    ghost var collided := store.Now();
    CollisionStillServed(collided);
    got := RetrieveRow(store, collided, KEY_A, 4.0);
  }

  // ---------- Stored, then retrieved ----------

  /** What an accepted store that met no other content makes retrievable: the content, under the key
      it returned, until its time to live is over and not after. */
  method StoreThenRetrieve(store: Store, original: string, compressed: string, ttl: Option<int>, explicitHash: Option<string>,
                           requireDurable: bool, readAt: real, now: real, query: Option<string>, at: real)
    returns (stored: Result<string, StoreError>, got: Option<Entry>)
    requires store.Valid()
    modifies store
    ensures store.Valid()
    ensures stored.Ok? && (requireDurable || old(stored.value !in store.backend || store.backend[stored.value].original == original)) ==>
              && (got.Some? <==> at - readAt <= (if ttl.Some? then ttl.value else store.defaultTtl) as real)
              && (got.Some? ==> got.value.original == original && got.value.compressed == compressed)
    ensures stored.Ok? && explicitHash.None? ==> stored.value == store.digest(original)
    ensures (ttl.None? || ttl.value > 0) && explicitHash.None? && (store.digest(original) !in old(store.backend) || !requireDurable) ==>
              stored.Ok?
  {
    hide Step, Store.Valid, KeyFor, Newest, Unexpired;
    stored := store.Store(original, compressed, ttl, explicitHash, requireDurable, readAt, now);
    KeyForExactly(original, explicitHash, store.digest);
    got := None;
    if stored.Ok? {
      got := store.Retrieve(stored.value, query, at);
    }
  }

  // ---------- Cascading purges ----------

  lemma PurgeUnique(s: Tiers, gone: set<string>, s': Tiers)
    requires Step(C2, s, Purge(gone), 0.0, s')
    ensures s' == Tiers(s.backend - gone, s.spill - gone)
  {
  }

  /** A cascading purge, in terms of the store's tiers. */
  method CascadeRow(store: Store, ghost s: Tiers, h: string) returns (out: CascadeOutcome, ghost owned: set<string>)
    requires store.Valid() && store.cfg == C2 && store.Now() == s
    modifies store
    ensures store.Valid() && store.Now() == Tiers(s.backend - owned, s.spill - owned)
    ensures PurgeReported(store.References(s.backend), s.spill.Keys, true, h, owned, out)
  {
    hide Step, Store.Valid, PurgeReported, Store.References;
    var erased;
    out, erased := store.DeleteCascade(h);
    owned := erased;
    PurgeUnique(s, owned, store.Now());
  }

  lemma GetOfNothing(s: Tiers, h: string, now: real, s': Tiers)
    requires Step(C2, s, Get(h, None), now, s') && h !in s.backend && h !in s.spill
    ensures s' == s
  {
  }

  lemma KeysDiffer()
    ensures KEY_A != KEY_B && KEY_B != KEY_D && KEY_A != KEY_D
  {
    assert KEY_A[0] != KEY_B[0] && KEY_B[0] != KEY_D[0] && KEY_A[0] != KEY_D[0];
  }

  /** What the rows of the primary name, when the texts in `naming` name one hash. */
  lemma ReferencesOfTexts(store: Store, t: Table, k: string, text: string)
    requires k in t && t[k].original == text && t[k].compressed == "" && store.hashesInText("") == []
    ensures k in store.References(t) && store.References(t)[k] == set n | n in store.hashesInText(text)
  {
  }

  /** Two texts name the second row. */
  const FIRST_AND_THIRD := (text: string) => if text == "A" || text == "D" then [KEY_B] else []
  /** Only the first does. */
  const FIRST_ONLY := (text: string) => if text == "A" then [KEY_B] else []

  lemma OwnedPair(g: Graph, top: string, nested: string, owned: set<string>)
    requires top != nested && g.Keys == {nested, top} && g[nested] == {} && g[top] == {nested} && OwnedBy(g, top, owned)
    ensures owned == {top, nested}
  {
    assert Names(g, top, nested) && Orphaned(g, owned, nested);
    assert Closed(g, {top, nested});
  }

  lemma DanglingReferences(store: Store)
    requires store.hashesInText == FIRST_AND_THIRD
    ensures var g := store.References(S3.backend);
            g.Keys == {KEY_B, KEY_D} && g[KEY_B] == {} && g[KEY_D] == {KEY_B}
  {
    KeysDiffer();
    ReferencesOfTexts(store, S3.backend, KEY_B, "B");
    ReferencesOfTexts(store, S3.backend, KEY_D, "D");
  }

  /** The first and the third text name the second row, and the first row has been demoted. Purging
      the third erases the second, while the first is still served and still names it. */
  method PurgeUnderADemotedRow(digest: string -> string)
    returns (out: CascadeOutcome, nested: Option<Entry>, parent: Option<Entry>)
    ensures KEY_B in out.nestedDeleted && nested.None?
    ensures parent.Some? && KEY_B in FIRST_AND_THIRD(parent.value.original)
  {
    hide Step, Store.Valid, Store.References, KeyFor;
    var store := DemoteTheFirst(digest, FIRST_AND_THIRD);
    ghost var owned;
    DanglingReferences(store);
    out, owned := CascadeRow(store, S3, KEY_D);
    KeysDiffer();
    OwnedPair(store.References(S3.backend), KEY_D, KEY_B, owned);
    ghost var s := store.Now();
    nested := RetrieveRow(store, s, KEY_B, 3.0);
    GetOfNothing(s, KEY_B, 3.0, store.Now());
    parent := RetrieveRow(store, s, KEY_A, 3.0);
  }

  lemma OwnedAlone(g: Graph, h: string, owned: set<string>)
    requires (h !in g || g[h] <= {h}) && OwnedBy(g, h, owned)
    ensures owned == {h}
  {
    assert Closed(g, {h});
  }

  lemma FirstRowReferences(store: Store)
    requires store.hashesInText == FIRST_ONLY
    ensures KEY_A !in store.References(S3.backend)
  {
    KeysDiffer();
  }

  /** Only the first text names the second row, and the first row has been demoted. Purging it takes
      nothing with it: the second row, which nothing names any more, is still served. */
  method PurgeOfADemotedRow(digest: string -> string)
    returns (out: CascadeOutcome, parent: Option<Entry>, nested: Option<Entry>)
    ensures KEY_B in FIRST_ONLY(A0.original) && out.topDeleted && out.nestedDeleted == []
    ensures parent.None? && nested.Some? && nested.value.original == "B"
  {
    hide Step, Store.Valid, Store.References, KeyFor;
    var store := DemoteTheFirst(digest, FIRST_ONLY);
    ghost var owned;
    FirstRowReferences(store);
    out, owned := CascadeRow(store, S3, KEY_A);
    OwnedAlone(store.References(S3.backend), KEY_A, owned);
    NoNested(out, owned, KEY_A);
    KeysDiffer();
    ghost var s := store.Now();
    parent := RetrieveRow(store, s, KEY_A, 3.0);
    GetOfNothing(s, KEY_A, 3.0, store.Now());
    nested := RetrieveRow(store, s, KEY_B, 3.0);
  }

  lemma NoNested(out: CascadeOutcome, owned: set<string>, top: string)
    requires owned == {top} && forall x :: x in out.nestedDeleted ==> x in owned && x != top
    ensures out.nestedDeleted == []
  {
    SomeElement(out.nestedDeleted);
  }

  lemma SomeElement(xs: seq<string>)
    ensures xs != [] ==> exists x :: x in xs
  {
    if xs != [] {
      assert xs[0] in xs;
    }
  }

  /** The second and the third text name the first row. */
  const SECOND_AND_THIRD := (text: string) => if text == "B" || text == "D" then [KEY_A] else []

  /** As the second row, but good for one second only. */
  const SHORT := Row(KEY_B, "B", 1.0, 1)
  const T2 := Tiers(map[KEY_A := A0, KEY_B := SHORT], map[])
  const T3 := Tiers(map[KEY_B := SHORT, KEY_D := D2], map[KEY_A := A0])

  lemma ShortPuts()
    ensures Step(C2, S0, Put(KEY_A, A0), 0.0, S1) && Step(C2, S1, Put(KEY_B, SHORT), 1.0, T2)
    ensures Step(C2, T2, Put(KEY_D, D2), 2.0, T3)
  {
    FirstTwoPuts();
    PutBelowCapacity(S1, KEY_B, SHORT, 1.0);
    assert S1.backend[KEY_B := SHORT] == T2.backend;
    PutAtCapacity(T2, KEY_A, KEY_B, KEY_D, D2, 2.0);
    assert T2.spill[KEY_A := A0] == T3.spill;
  }

  lemma ExpiredReferences(store: Store)
    requires store.hashesInText == SECOND_AND_THIRD
    ensures var g := store.References(T3.backend);
            g.Keys == {KEY_B, KEY_D} && g[KEY_B] == {KEY_A} && g[KEY_D] == {KEY_A}
  {
    KeysDiffer();
    ReferencesOfTexts(store, T3.backend, KEY_B, "B");
    ReferencesOfTexts(store, T3.backend, KEY_D, "D");
  }

  lemma OwnedButProtected(g: Graph, owned: set<string>)
    requires g.Keys == {KEY_B, KEY_D} && g[KEY_B] == {KEY_A} && g[KEY_D] == {KEY_A} && OwnedBy(g, KEY_D, owned)
    ensures owned == {KEY_D} && Names(g, KEY_D, KEY_A) && KEY_A !in owned
  {
    KeysDiffer();
    assert Names(g, KEY_B, KEY_A) && !Orphaned(g, {KEY_D}, KEY_A);
    assert Closed(g, {KEY_D});
  }

  /** The second and the third text name the first row, and the second row has expired. Purging the
      third leaves the first one served as shared, though nothing that can be served names it. */
  method PurgeUnderAnExpiredRow(digest: string -> string)
    returns (out: CascadeOutcome, nested: Option<Entry>, referent: Option<Entry>)
    ensures KEY_A in out.nestedSharedSkipped && nested.Some? && nested.value.original == "A" && referent.None?
  {
    hide Step, Store.Valid, Store.References, KeyFor;
    var store := new Store(C2, 100, digest, SECOND_AND_THIRD);
    OwnKeyIsTaken('a', "A", digest);
    OwnKeyIsTaken('b', "B", digest);
    OwnKeyIsTaken('d', "D", digest);
    ShortPuts();
    PutRow(store, S0, A0, S1);
    PutRow(store, S1, SHORT, T2);
    PutRow(store, T2, D2, T3);
    ghost var owned;
    ExpiredReferences(store);
    out, owned := CascadeRow(store, T3, KEY_D);
    OwnedButProtected(store.References(T3.backend), owned);
    KeysDiffer();
    ghost var s := store.Now();
    nested := RetrieveRow(store, s, KEY_A, 10.0);
    GetOfSpilled(s, KEY_A, 10.0, store.Now());
    referent := RetrieveRow(store, s, KEY_B, 10.0);
  }

  /** A view of the second content whose compressed text names the first row. */
  const VIEW := Entry(KEY_B, "B", "[A]", 1.0, 100, 0, [])
  const IN_VIEW := (text: string) => if text == "[A]" then [KEY_A] else []
  const V2 := Tiers(map[KEY_A := A0, KEY_B := VIEW], map[])

  lemma ViewPuts()
    ensures Step(C2, S0, Put(KEY_A, A0), 0.0, S1) && Step(C2, S1, Put(KEY_B, VIEW), 1.0, V2)
  {
    FirstTwoPuts();
    PutBelowCapacity(S1, KEY_B, VIEW, 1.0);
    assert S1.backend[KEY_B := VIEW] == V2.backend;
  }

  lemma ViewReferences(store: Store)
    requires store.hashesInText == IN_VIEW
    ensures var g := store.References(V2.backend);
            g.Keys == {KEY_A, KEY_B} && g[KEY_A] == {} && g[KEY_B] == {KEY_A}
  {
    KeysDiffer();
    store.NamesInTexts(V2.backend, KEY_B, KEY_A);
  }

  /** Only the compressed text of the second row names the first. Purging the second takes the first
      with it. */
  method PurgeThroughTheCompressedText(digest: string -> string) returns (out: CascadeOutcome, nested: Option<Entry>)
    ensures out == CascadeOutcome(true, [KEY_A], []) && nested.None?
  {
    hide Step, Store.Valid, Store.References, KeyFor;
    var store := new Store(C2, 100, digest, IN_VIEW);
    OwnKeyIsTaken('a', "A", digest);
    OwnKeyIsTaken('b', "B", digest);
    ViewPuts();
    PutRow(store, S0, A0, S1);
    PutRow(store, S1, VIEW, V2);
    ghost var owned;
    ViewReferences(store);
    KeysDiffer();
    out, owned := CascadeRow(store, V2, KEY_B);
    OwnedPair(store.References(V2.backend), KEY_B, KEY_A, owned);
    PairReported(store.References(V2.backend), owned, out);
    ghost var s := store.Now();
    nested := RetrieveRow(store, s, KEY_A, 3.0);
    GetOfNothing(s, KEY_A, 3.0, store.Now());
  }

  lemma PairReported(g: Graph, owned: set<string>, out: CascadeOutcome)
    requires PurgeReported(g, {}, true, KEY_B, owned, out)
    requires KEY_A != KEY_B && owned == {KEY_B, KEY_A} && KEY_A in g && KEY_B in g && g[KEY_A] == {} && g[KEY_B] == {KEY_A}
    ensures out == CascadeOutcome(true, [KEY_A], [])
  {
    assert KEY_A in out.nestedDeleted;
    OnlyElement(out.nestedDeleted, KEY_A);
    SomeElement(out.nestedSharedSkipped);
  }

  lemma OnlyElement(xs: seq<string>, x: string)
    requires NoRepeats(xs) && x in xs
    ensures (forall y :: y in xs ==> y == x) ==> xs == [x]
  {
    assert |xs| > 1 ==> xs[0] in xs && xs[1] in xs && xs[0] != xs[1];
  }

  lemma GetOfSpilled(s: Tiers, h: string, now: real, s': Tiers)
    requires Step(C2, s, Get(h, None), now, s') && h !in s.backend && h in s.spill && !Expired(s.spill[h], now)
    ensures s' == s
  {
  }
}
