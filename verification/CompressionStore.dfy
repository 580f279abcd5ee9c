/** The two-tier compression store: a primary table with time-to-live, a lazily cleaned
    eviction heap with a counter of its stale tuples, and an optional spill tier. */
module CompressionStore {
  import opened Cardinality
  import opened Sequences
  import opened Wrappers
  import opened EvictionOrder
  import opened StoreTables
  import opened ReferenceGraph
  import opened TierReferences

  const MIN_EXPLICIT_HASH_LEN := 6

  datatype StoreError =
    | NonPositiveTtl
    | NotHex
    | HashTooShort
    | CollisionVeto(hash: string)

  predicate IsHexDigit(c: char) {
    '0' <= c <= '9' || 'a' <= c <= 'f' || 'A' <= c <= 'F'
  }

  function LowerHex(s: string): string {
    seq(|s|, i requires 0 <= i < |s| =>
      if 'A' <= s[i] <= 'F' then (s[i] as int - 'A' as int + 'a' as int) as char else s[i])
  }

  /** Everything dropped from `base` is older than everything kept. */
  ghost predicate OlderThan(base: Table, kept: Table) {
    forall d, k :: d in base && d !in kept && k in kept && k in base ==> Before(TickOf(d, base[d]), TickOf(k, base[k]))
  }

  /** The stale counter is exact and the heap names every live entry. */
  ghost predicate Accounted(t: Table, heap: multiset<Tick>, stale: int) {
    stale == |heap| - |t| && Covers(t, heap)
  }

  /** Dropping the oldest one at a time until below capacity reaches what the rule keeps. */
  lemma NewestReached(base: Table, kept: Table, cap: nat)
    requires 1 <= cap && SubTable(kept, base) && OlderThan(base, kept) && |kept| < cap
    requires |base| < cap ==> kept == base
    requires |base| >= cap ==> |kept| >= cap - 1
    ensures kept == Newest(base, cap)
  {
    KeepsNewestUnique(kept, Newest(base, cap), base, cap);
  }

  lemma OlderStep(base: Table, kept: Table, h: string)
    requires h in kept && SubTable(kept, base)
    ensures OlderThan(base, kept) && (forall k :: k in kept && k != h ==> Before(TickOf(h, kept[h]), TickOf(k, kept[k]))) ==>
              OlderThan(base, kept - {h})
  {
  }

  lemma CoveredCountIfCovered(t: Table, heap: multiset<Tick>)
    ensures Covers(t, heap) ==> |t| <= |heap|
  {
    if Covers(t, heap) {
      CoveredCount(t, heap);
    }
  }

  /** Popping the least tuple of a covering heap: a live one names the oldest entry, a stale
      one leaves more tuples than entries. */
  lemma PopKeepsCover(t: Table, heap: multiset<Tick>, tick: Tick, rest: multiset<Tick>)
    requires IsFirst(tick, heap) && rest == heap - multiset{tick}
    ensures Covers(t, heap) && tick.key in t && t[tick.key].createdAt == tick.at ==>
              && Covers(t - {tick.key}, rest)
              && forall k :: k in t - {tick.key} ==> Before(tick, TickOf(k, t[k]))
    ensures Covers(t, heap) && !(tick.key in t && t[tick.key].createdAt == tick.at) ==> Covers(t, rest) && |t| <= |rest|
  {
    forall k | Covers(t, heap) && k in t && k != tick.key ensures TickOf(k, t[k]) in rest && Before(tick, TickOf(k, t[k])) {
      assert TickOf(k, t[k]) in heap && TickOf(k, t[k]) != tick;
    }
    if Covers(t, heap) && !(tick.key in t && t[tick.key].createdAt == tick.at) {
      assert Covers(t, rest);
      CoveredCount(t, rest);
    }
  }

  /** One spill write: made when there is a spill, unless it faults. */
  ghost predicate SpilledOne(before: Table, after: Table, h: string, e: Entry, hasSpill: bool, reliable: bool) {
    && (after == before || (hasSpill && after == before[h := e]))
    && (hasSpill && reliable ==> after == before[h := e])
  }

  /** Dropping one more entry, demoted or lost, keeps the account of the spill tier. */
  lemma DemotedStep(before: Table, mid: Table, after: Table, base: Table, kept: Table, h: string,
                    hasSpill: bool, reliable: bool)
    requires Demoted(before, mid, base, kept, hasSpill, reliable) && SubTable(kept, base) && h in kept
    requires SpilledOne(mid, after, h, kept[h], hasSpill, reliable)
    ensures Demoted(before, after, base, kept - {h}, hasSpill, reliable)
  {
  }

  /** Whether the next spill operation raises. */
  method SpillFaults(reliable: bool) returns (fault: bool)
    ensures reliable ==> !fault
  {
    var any: bool := *;
    fault := any && !reliable;
  }

  method SpillEvicted(spill: Table, h: string, e: Entry, hasSpill: bool, reliable: bool) returns (after: Table)
    ensures SpilledOne(spill, after, h, e, hasSpill, reliable)
  {
    after := spill;
    if hasSpill {
      var fault := SpillFaults(reliable);
      if !fault {
        after := after[h := e];
      }
    }
  }

  lemma NothingDemoted(spill: Table, base: Table, hasSpill: bool, reliable: bool)
    ensures Demoted(spill, spill, base, base, hasSpill, reliable) && OlderThan(base, base)
  {
  }

  lemma RebuiltCovers(t: Table)
    ensures Covers(t, CreatedAtIndex(t)) && |CreatedAtIndex(t)| == |t| && Accounted(t, CreatedAtIndex(t), 0)
  {
    TicksCount(t);
  }

  /** Popping a live tuple drops the oldest entry and keeps the account. */
  lemma LiveTuple(base: Table, t: Table, heap: multiset<Tick>, tick: Tick, rest: multiset<Tick>, stale: int)
    requires IsFirst(tick, heap) && rest == heap - multiset{tick} && |rest| == |heap| - 1 && SubTable(t, base)
    requires tick.key in t && t[tick.key].createdAt == tick.at
    ensures |t - {tick.key}| == |t| - 1 && SubTable(t - {tick.key}, base)
    ensures Accounted(t, heap, stale) && OlderThan(base, t) ==>
              Accounted(t - {tick.key}, rest, stale) && OlderThan(base, t - {tick.key})
  {
    hide Before;
    PopKeepsCover(t, heap, tick, rest);
    OlderStep(base, t, tick.key);
  }

  /** Popping a stale one leaves the entries alone; the counter follows. */
  lemma StaleTuple(t: Table, heap: multiset<Tick>, tick: Tick, rest: multiset<Tick>, stale: int)
    requires IsFirst(tick, heap) && rest == heap - multiset{tick} && |rest| == |heap| - 1
    requires !(tick.key in t && t[tick.key].createdAt == tick.at)
    ensures Covers(t, heap) ==> Covers(t, rest)
    ensures Accounted(t, heap, stale) ==> Accounted(t, rest, if stale > 0 then stale - 1 else stale)
  {
    PopKeepsCover(t, heap, tick, rest);
  }

  lemma AccountedMeans(t: Table, heap: multiset<Tick>, stale: int)
    requires Accounted(t, heap, stale)
    ensures stale == |heap| - |t| && |t| <= |heap| && Covers(t, heap)
  {
    CoveredCount(t, heap);
  }

  lemma WholeTable(t: Table)
    ensures SubTable(t, t)
  {
  }

  /** The eviction loop, on the store's tables: pops the least tuple until the primary is below
      capacity, demoting and dropping the entry a live tuple names, skipping stale tuples, and
      rebuilding the heap when it runs dry. */
  method EvictToCapacity(base: Table, spill0: Table, heap0: multiset<Tick>, stale0: int, cap: nat,
                         hasSpill: bool, reliable: bool)
    returns (backend: Table, spill: Table, heap: multiset<Tick>, stale: int)
    requires 1 <= cap
    ensures |backend| < cap && SubTable(backend, base)
    ensures Demoted(spill0, spill, base, backend, hasSpill, reliable)
    ensures Accounted(base, heap0, stale0) ==>
              Accounted(backend, heap, stale) && |heap| <= |heap0| && backend == Newest(base, cap)
  {
    hide *;
    NothingDemoted(spill0, base, hasSpill, reliable);
    WholeTable(base);
    backend, spill, heap, stale := base, spill0, heap0, stale0;
    ghost var accounted := Accounted(base, heap0, stale0);
    var rebuilt := false;
    while |backend| >= cap
      invariant SubTable(backend, base)
      invariant Demoted(spill0, spill, base, backend, hasSpill, reliable)
      invariant accounted ==> Accounted(backend, heap, stale) && |heap| <= |heap0| && OlderThan(base, backend)
      invariant rebuilt ==> Covers(backend, heap)
      invariant |base| < cap ==> backend == base
      invariant |base| >= cap ==> |backend| >= cap - 1
      decreases |backend|, if rebuilt then 0 else 1, |heap|
    {
      CoveredCountIfCovered(backend, heap);
      if accounted {
        AccountedMeans(backend, heap, stale);
      }
      if |heap| == 0 {
        // The two give-up exits are never taken: a rebuilt heap names every live entry.
        if rebuilt {
          assert false;
        }
        heap, stale := CreatedAtIndex(backend), 0;
        RebuiltCovers(backend);
        rebuilt := true;
        if |heap| == 0 {
          assert false;
        }
      } else {
        var tick, rest := HeapPop(heap);
        var h := tick.key;
        if h in backend && backend[h].createdAt == tick.at {
          var spilled := SpillEvicted(spill, h, backend[h], hasSpill, reliable);
          DemotedStep(spill0, spill, spilled, base, backend, h, hasSpill, reliable);
          LiveTuple(base, backend, heap, tick, rest, stale);
          backend, spill, heap := backend - {h}, spilled, rest;
          rebuilt := false;
        } else {
          StaleTuple(backend, heap, tick, rest, stale);
          heap := rest;
          if stale > 0 {
            stale := stale - 1;
          }
        }
      }
    }
    if accounted {
      NewestReached(base, backend, cap);
    }
  }

  /** The storage key: the caller's own, if it is an acceptable hex string, else a digest. */
  function KeyFor(original: string, explicitHash: Option<string>, digest: string -> string): Result<string, StoreError> {
    match explicitHash
    case None => Ok(digest(original))
    case Some(h) =>
      if h == "" || exists i :: 0 <= i < |h| && !IsHexDigit(h[i]) then Err(NotHex)
      else if |h| < MIN_EXPLICIT_HASH_LEN then Err(HashTooShort)
      else Ok(LowerHex(h))
  }

  /** A character of a hex string, and what it is in lower case. */
  predicate Lowers(c: char, low: char) {
    if c in "ABCDEF" then low as int == c as int + 32 else c in "0123456789abcdef" && low == c
  }

  /** Which keys are accepted, as what, and why the others are not. */
  lemma KeyForExactly(original: string, explicitHash: Option<string>, digest: string -> string)
    ensures var key := KeyFor(original, explicitHash, digest);
            match explicitHash
            case None => key == Ok(digest(original))
            case Some(h) =>
              && (key == Err(NotHex) <==> h == "" || exists i :: 0 <= i < |h| && h[i] !in "0123456789abcdefABCDEF")
              && (key == Err(HashTooShort) <==> 0 < |h| < 6 && forall i :: 0 <= i < |h| ==> h[i] in "0123456789abcdefABCDEF")
              && (key.Ok? <==> |h| >= 6 && forall i :: 0 <= i < |h| ==> h[i] in "0123456789abcdefABCDEF")
              && (key.Ok? ==> |key.value| == |h| && forall i :: 0 <= i < |h| ==> Lowers(h[i], key.value[i]))
  {
    forall c: char ensures IsHexDigit(c) <==> c in "0123456789abcdefABCDEF" {
      HexDigitsAre(c);
    }
    if explicitHash.Some? {
      forall i | 0 <= i < |explicitHash.value| && IsHexDigit(explicitHash.value[i])
        ensures Lowers(explicitHash.value[i], LowerHex(explicitHash.value)[i])
      {
        HexDigitsAre(explicitHash.value[i]);
      }
    }
  }

  lemma HexDigitsAre(c: char)
    ensures IsHexDigit(c) <==> c in "0123456789abcdefABCDEF"
    ensures 'A' <= c <= 'F' <==> c in "ABCDEF"
    ensures IsHexDigit(c) && !('A' <= c <= 'F') ==> c in "0123456789abcdef"
  {
    var upper, all := "ABCDEF", "0123456789abcdefABCDEF";
    if 'A' <= c <= 'F' {
      assert upper[c as int - 'A' as int] == c && all[c as int - 'A' as int + 16] == c;
    } else if 'a' <= c <= 'f' {
      assert "0123456789abcdef"[c as int - 'a' as int + 10] == c && all[c as int - 'a' as int + 10] == c;
    } else if '0' <= c <= '9' {
      assert "0123456789abcdef"[c as int - '0' as int] == c && all[c as int - '0' as int] == c;
    }
  }

  /** What a binding leaves under its key. */
  lemma BoundRow(kept: Table, base: Table, h: string, e: Entry)
    requires SubTable(kept, base)
    ensures var after := Bind(kept, h, e);
            && (h in after ==> after[h] == e)
            && (h in after <==> !Collides(kept, h, e))
            && (h !in after ==> h in base && base[h].original != e.original)
  {
  }

  /** Binding `e` keeps the heap account exact: a replaced or dropped entry leaves one more
      stale tuple, and every new binding pushes its own. */
  lemma BindAccounted(kept: Table, heap: multiset<Tick>, stale: int, h: string, e: Entry)
    requires Accounted(kept, heap, stale)
    ensures Collides(kept, h, e) ==> Accounted(Bind(kept, h, e), heap, stale + 1)
    ensures !Collides(kept, h, e) ==>
              Accounted(Bind(kept, h, e), heap + multiset{TickOf(h, e)}, stale + if h in kept then 1 else 0)
    ensures |Bind(kept, h, e)| <= |kept| + 1
  {
    var after := Bind(kept, h, e);
    if Collides(kept, h, e) {
      assert kept == after[h := kept[h]];
    } else if h in kept {
      assert after.Keys == kept.Keys;
      assert |after.Keys| == |after| && |kept.Keys| == |kept|;
    }
  }

  lemma TodoStep(nested: seq<string>, i: nat)
    requires i < |nested|
    ensures Members(nested[i..]) - {nested[i]} <= Members(nested[i + 1..]) <= Members(nested[i..])
  {
    assert nested[i..] == [nested[i]] + nested[i + 1..];
  }

  lemma ErasedAgain(s0: Table, s1: Table, s2: Table, before: set<string>, seen: set<string>, after: set<string>, reliable: bool)
    requires before <= seen <= after
    requires SpillErased(s0, s1, seen - before, reliable) && SpillErased(s1, s2, after - seen, reliable)
    ensures SpillErased(s0, s2, after - before, reliable)
  {
    forall x | reliable && x in after - before
      ensures x !in s2
    {
      assert x in seen - before || x in after - seen;
    }
  }

  lemma DroppedAccounted(t: Table, heap: multiset<Tick>, stale: int, h: string)
    requires Accounted(t, heap, stale)
    ensures Accounted(t - {h}, heap, stale + if h in t then 1 else 0) && |t - {h}| <= |t|
  {
    if h in t {
      assert |t - {h}| == |t| - 1;
    } else {
      assert t - {h} == t;
    }
  }

  /** One hash erased from both tiers; true when a row went from either. */
  method PurgeRow(t: Table, spill: Table, stale: int, h: string, hasSpill: bool, reliable: bool)
    returns (t': Table, spill': Table, stale': int, r: bool)
    requires !hasSpill ==> spill == map[]
    ensures t' == t - {h} && stale' == stale + if h in t then 1 else 0
    ensures spill' == spill - {h} || (!reliable && spill' == spill)
    ensures !hasSpill ==> spill' == map[]
    ensures h in t ==> r
    ensures r ==> h in t || (h in spill && h !in spill')
    ensures reliable ==> r == (h in t || h in spill)
  {
    t', spill', stale', r := t - {h}, spill, stale, h in t;
    if r {
      stale' := stale + 1;
    }
    if hasSpill {
      var fault := SpillFaults(reliable);
      if !fault {
        r := r || h in spill;
        spill' := spill - {h};
      }
    }
  }

  lemma PurgedOne(c: Config, before: Tiers, after: Tiers, h: string)
    requires 1 <= c.maxEntries && after.backend == before.backend - {h}
    requires after.spill == before.spill - {h} || (!c.spillReliable && after.spill == before.spill)
    ensures SpillErased(before.spill, after.spill, {h}, c.spillReliable) && Step(c, before, Purge({h}), 0.0, after)
  {
  }

  lemma ErasedKeys(before: Table, after: Table, gone: set<string>, reliable: bool)
    requires SpillErased(before, after, gone, reliable)
    ensures after.Keys <= before.Keys && forall x :: x in before.Keys && x !in gone ==> x in after.Keys
  {
  }

  lemma MinusAgain(b0: Table, seen: set<string>, after: set<string>)
    requires seen <= after
    ensures (b0 - seen) - after == b0 - after
  {
  }

  class Store {
    const cfg: Config
    const defaultTtl: int
    /** The digest a computed key is made of. */
    const digest: string -> string
    /** Every marker hash in a text, in first-seen order. */
    const hashesInText: string -> seq<string>

    var backend: Table
    var spill: Table
    var heap: multiset<Tick>
    var stale: int

    /** The invariant of every reachable state. */
    ghost predicate Valid()
      reads this
    {
      && 1 <= cfg.maxEntries
      && (!cfg.hasSpill ==> spill == map[])
      && Accounted(backend, heap, stale)
      && |backend| <= cfg.maxEntries
      && |heap| <= 2 * cfg.maxEntries
    }

    ghost function Now(): Tiers
      reads this
    {
      Tiers(backend, spill)
    }

    constructor (cfg: Config, defaultTtl: int, digest: string -> string, hashesInText: string -> seq<string>)
      requires 1 <= cfg.maxEntries
      ensures Valid() && Now() == Tiers(map[], map[])
      ensures this.cfg == cfg && this.defaultTtl == defaultTtl
      ensures this.digest == digest && this.hashesInText == hashesInText
    {
      this.cfg, this.defaultTtl := cfg, defaultTtl;
      this.digest, this.hashesInText := digest, hashesInText;
      backend, spill, heap, stale := map[], map[], multiset{}, 0;
    }

    // ---------- Eviction ----------

    method RebuildHeap()
      modifies this`heap, this`stale
      ensures heap == CreatedAtIndex(backend) && stale == 0 && Accounted(backend, heap, stale)
    {
      heap := CreatedAtIndex(backend);
      stale := 0;
      TicksCount(backend);
    }

    method CleanExpired(now: real)
      modifies this`backend, this`stale
      ensures backend == Unexpired(old(backend), now)
      ensures |backend| <= |old(backend)|
      ensures stale == old(stale) + |old(backend)| - |backend|
    {
      var live := Unexpired(backend, now);
      var purged := |backend| - |live|;
      SubsetSize(live.Keys, backend.Keys);
      assert |live.Keys| == |live| && |backend.Keys| == |backend|;
      backend := live;
      stale := stale + purged;
    }

    /** Whatever the heap and the counter hold, this ends below capacity. When the heap names
        every live entry, as it does in every reachable state, it keeps exactly the entries the
        simple rule keeps: drop the expired, then at capacity keep the newest. */
    method EvictIfNeeded(now: real)
      requires 1 <= cfg.maxEntries
      modifies this`backend, this`spill, this`heap, this`stale
      ensures |backend| < cfg.maxEntries && SubTable(backend, Unexpired(old(backend), now))
      ensures Demoted(old(spill), spill, Unexpired(old(backend), now), backend, cfg.hasSpill, cfg.spillReliable)
      ensures old(Accounted(backend, heap, stale)) ==>
                && Accounted(backend, heap, stale)
                && backend == Newest(Unexpired(old(backend), now), cfg.maxEntries)
                && (|old(backend)| <= cfg.maxEntries ==> |heap| < 2 * cfg.maxEntries)
    {
      CleanExpired(now);
      if |heap| > 0 && 2 * stale >= |heap| {
        RebuildHeap();
      }
      backend, spill, heap, stale := EvictToCapacity(backend, spill, heap, stale, cfg.maxEntries, cfg.hasSpill, cfg.spillReliable);
    }

    // ---------- Writing ----------

    /** Binds `e` and accounts for the tuple it replaces, or drops an ambiguous binding. */
    method BindEntry(h: string, e: Entry) returns (collided: bool)
      requires Accounted(backend, heap, stale) && |backend| < cfg.maxEntries && |heap| < 2 * cfg.maxEntries
      modifies this`backend, this`heap, this`stale
      ensures collided == Collides(old(backend), h, e) && backend == Bind(old(backend), h, e)
      ensures Accounted(backend, heap, stale) && |backend| <= cfg.maxEntries && |heap| <= 2 * cfg.maxEntries
    {
      BindAccounted(backend, heap, stale, h, e);
      collided := h in backend && backend[h].original != e.original;
      if collided {
        backend := backend - {h};
        stale := stale + 1;
      } else {
        if h in backend {
          stale := stale + 1;
        }
        backend := backend[h := e];
        heap := heap + multiset{TickOf(h, e)};
      }
    }

    /** The entry's timestamp `readAt` is read before the lock, the eviction clock `now` after.
        A rejected argument changes nothing. */
    method Store(original: string, compressed: string, ttl: Option<int>, explicitHash: Option<string>,
                 requireDurable: bool, readAt: real, now: real)
      returns (r: Result<string, StoreError>)
      requires Valid()
      modifies this
      ensures Valid()
      ensures ttl.Some? && ttl.value <= 0 ==> r == Err(NonPositiveTtl)
      ensures (ttl.None? || ttl.value > 0) && KeyFor(original, explicitHash, digest).Err? ==>
                r == Err(KeyFor(original, explicitHash, digest).error)
      ensures !Accepts(original, ttl, explicitHash) ==> Now() == old(Now())
      ensures r == Err(NonPositiveTtl) <==> ttl.Some? && ttl.value <= 0
      ensures r.Ok? && r.value in backend ==>
                var row := backend[r.value];
                && row.hash == r.value && row.original == original && row.compressed == compressed && row.createdAt == readAt
                && row.ttl == if ttl.Some? then ttl.value else defaultTtl
      ensures r.Ok? && explicitHash.None? ==> r.value == digest(original)
      ensures r.Ok? && r.value !in backend ==>
                !requireDurable && r.value in old(backend) && old(backend)[r.value].original != original
      ensures r.Err? && r.error.CollisionVeto? ==>
                var h := r.error.hash;
                requireDurable && h in old(backend) && old(backend)[h].original != original && h !in backend
      ensures Accepts(original, ttl, explicitHash) ==>
                var h := KeyFor(original, explicitHash, digest).value;
                var e := NewEntry(h, original, compressed, ttl, readAt);
                var collided := Collides(Newest(Unexpired(old(backend), now), cfg.maxEntries), h, e);
                && Step(cfg, old(Now()), Put(h, e), now, Now())
                && r == (if collided && requireDurable then Err(CollisionVeto(h)) else Ok(h))
    {
      if ttl.Some? && ttl.value <= 0 {
        return Err(NonPositiveTtl);
      }
      var key := KeyFor(original, explicitHash, digest);
      if key.Err? {
        return Err(key.error);
      }
      hide Step, Valid, KeyFor, Collides, Newest, Unexpired;
      KeyForExactly(original, explicitHash, digest);
      r := StoreEntry(key.value, NewEntry(key.value, original, compressed, ttl, readAt), requireDurable, now);
    }

    /** The part of it under the lock. */
    method StoreEntry(h: string, e: Entry, requireDurable: bool, now: real) returns (r: Result<string, StoreError>)
      requires Valid()
      modifies this
      ensures Valid() && Step(cfg, old(Now()), Put(h, e), now, Now())
      ensures var collided := Collides(Newest(Unexpired(old(backend), now), cfg.maxEntries), h, e);
              && r == (if collided && requireDurable then Err(CollisionVeto(h)) else Ok(h))
              && (h in backend <==> !collided)
      ensures h in backend ==> backend[h] == e
      ensures h !in backend ==> h in old(backend) && old(backend)[h].original != e.original
    {
      ghost var base := backend;
      EvictIfNeeded(now);
      BoundRow(backend, base, h, e);
      var collided := BindEntry(h, e);
      r := if collided && requireDurable then Err(CollisionVeto(h)) else Ok(h);
    }

    predicate Accepts(original: string, ttl: Option<int>, explicitHash: Option<string>) {
      (ttl.None? || ttl.value > 0) && KeyFor(original, explicitHash, digest).Ok?
    }

    function NewEntry(h: string, original: string, compressed: string, ttl: Option<int>, readAt: real): Entry {
      Entry(h, original, compressed, readAt, if ttl.Some? then ttl.value else defaultTtl, 0, [])
    }

    // ---------- Reading ----------

    /** Drops an expired primary row. Its heap tuple goes stale. */
    method Reap(h: string, now: real)
      requires Valid() && h in backend && Expired(backend[h], now)
      modifies this`backend, this`stale
      ensures Valid() && backend == old(backend) - {h}
    {
      assert |backend - {h}| == |backend| - 1;
      backend := backend - {h};
      stale := stale + 1;
    }

    /** Resolves a primary miss against the spill tier. A hit is never promoted; a read that
        faults is a miss; an expired row is reaped unless that delete faults. */
    method RecoverFromSpill(h: string, now: real) returns (r: Option<Entry>)
      requires Valid() && h !in backend
      modifies this`spill
      ensures Valid()
      ensures r.Some? ==> r == Served(backend, old(spill), h, now)
      ensures cfg.spillReliable ==> r == Served(backend, old(spill), h, now)
      ensures Step(cfg, old(Now()), Get(h, None), now, Now())
    {
      if !cfg.hasSpill {
        return None;
      }
      var fault := SpillFaults(cfg.spillReliable);
      if fault || h !in spill {
        return None;
      }
      if Expired(spill[h], now) {
        var deleteFault := SpillFaults(cfg.spillReliable);
        if !deleteFault {
          spill := spill - {h};
        }
        return None;
      }
      return Some(spill[h]);
    }

    method Retrieve(h: string, query: Option<string>, now: real) returns (r: Option<Entry>)
      requires Valid()
      modifies this
      ensures Valid()
      ensures r.Some? ==> Served(old(backend), old(spill), h, now).Some?
                          && SameStore(r.value, Served(old(backend), old(spill), h, now).value)
      ensures cfg.spillReliable || h in old(backend) ==>
                (r.Some? <==> Served(old(backend), old(spill), h, now).Some?)
      ensures Step(cfg, old(Now()), Get(h, query), now, Now())
    {
      if h !in backend {
        r := RecoverFromSpill(h, now);
      } else if Expired(backend[h], now) {
        Reap(h, now);
        r := None;
      } else {
        var touched := RecordAccess(backend[h], query);
        ghost var before := backend;
        backend := backend[h := touched];
        assert backend.Keys == before.Keys;
        assert |backend.Keys| == |backend| && |before.Keys| == |before|;
        r := Some(touched);
      }
    }

    /** Primary tier only. Reaps an expired row when asked to. */
    method Exists(h: string, cleanExpired: bool, now: real) returns (r: bool)
      requires Valid()
      modifies this`backend, this`stale
      ensures Valid()
      ensures r <==> h in old(backend) && !Expired(old(backend)[h], now)
      ensures backend == if cleanExpired && h in old(backend) && Expired(old(backend)[h], now) then old(backend) - {h}
                         else old(backend)
      ensures Step(cfg, old(Now()), Probe(h), now, Now())
    {
      if h !in backend {
        return false;
      }
      r := !Expired(backend[h], now);
      if !r && cleanExpired {
        Reap(h, now);
      }
    }

    /** A pure read-back over both tiers. A spill that cannot be read counts as holding the hash. */
    method ExistsAnyTier(h: string, now: real) returns (r: bool)
      requires Valid()
      ensures AnyTierHolds(backend, spill, h, now) ==> r
      ensures cfg.spillReliable || !cfg.hasSpill ==> r == AnyTierHolds(backend, spill, h, now)
    {
      if h in backend && !Expired(backend[h], now) {
        return true;
      }
      if !cfg.hasSpill {
        return false;
      }
      var fault := SpillFaults(cfg.spillReliable);
      if fault {
        return true;
      }
      return h in spill && !Expired(spill[h], now);
    }

    /** The entry count `get_stats` reports, after reaping. */
    method EntryCount(now: real) returns (n: nat)
      requires Valid()
      modifies this`backend, this`stale
      ensures Valid() && n == |backend|
      ensures Step(cfg, old(Now()), Sweep, now, Now())
    {
      CleanExpired(now);
      n := |backend|;
    }

    // ---------- Erasing ----------

    /** Erases one hash from both tiers. True when a row went from either. */
    method Delete(h: string) returns (r: bool)
      requires Valid()
      modifies this`backend, this`spill, this`stale
      ensures Valid()
      ensures backend == old(backend) - {h}
      ensures spill == old(spill) - {h} || (!cfg.spillReliable && spill == old(spill))
      ensures SpillErased(old(spill), spill, {h}, cfg.spillReliable)
      ensures h in old(backend) ==> r
      ensures r ==> h in old(backend) || (h in old(spill) && h !in spill)
      ensures cfg.spillReliable ==> r == (h in old(backend) || h in old(spill))
      ensures Step(cfg, old(Now()), Purge({h}), 0.0, Now())
    {
      hide *;
      ghost var before := Tiers(backend, spill);
      ValidParts();
      DroppedAccounted(backend, heap, stale, h);
      backend, spill, stale, r := PurgeRow(backend, spill, stale, h, cfg.hasSpill, cfg.spillReliable);
      PurgedOne(cfg, before, Tiers(backend, spill), h);
      PartsValid();
    }

    lemma ValidParts()
      requires Valid()
      ensures 1 <= cfg.maxEntries && (!cfg.hasSpill ==> spill == map[]) && Accounted(backend, heap, stale)
      ensures |backend| <= cfg.maxEntries && |heap| <= 2 * cfg.maxEntries && Now() == Tiers(backend, spill)
    {
    }

    lemma PartsValid()
      requires 1 <= cfg.maxEntries && (!cfg.hasSpill ==> spill == map[]) && Accounted(backend, heap, stale)
      requires |backend| <= cfg.maxEntries && |heap| <= 2 * cfg.maxEntries
      ensures Valid() && Now() == Tiers(backend, spill)
    {
    }

    /** Wipes the store and reports how many rows may still be reachable: zero only when none is. A
        spill whose rows cannot be counted (`uncounted`) is reported as one. */
    method Clear() returns (residual: nat, ghost uncounted: bool)
      requires Valid()
      modifies this
      ensures Valid() && backend == map[] && heap == multiset{} && stale == 0
      ensures residual == 0 ==> spill == map[]
      ensures residual == if uncounted then 1 else |spill|
      ensures uncounted ==> cfg.hasSpill && !cfg.spillReliable
      ensures cfg.spillReliable || !cfg.hasSpill ==> residual == 0
      ensures spill == map[] || (!cfg.spillReliable && spill == old(spill))
      ensures Step(cfg, old(Now()), Wipe, 0.0, Now())
    {
      backend := map[];
      residual, uncounted := 0, false;
      if cfg.hasSpill {
        var fault := SpillFaults(cfg.spillReliable);
        if !fault {
          spill := map[];
        } else {
          var countFault := SpillFaults(cfg.spillReliable);
          residual := if countFault then 1 else |spill|;
          uncounted := countFault;
        }
      }
      heap := multiset{};
      stale := 0;
    }

    // ---------- The cascading purge ----------

    /** The marker hashes an entry's stored text names. */
    function MarkersOf(e: Entry): set<string> {
      (set n | n in hashesInText(e.compressed)) + (set n | n in hashesInText(e.original))
    }

    ghost function References(t: Table): Graph {
      map k | k in t :: MarkersOf(t[k])
    }

    /** Distinct marker hashes of an entry but `exclude`, first seen first. */
    method EntryMarkerHashes(e: Entry, exclude: string) returns (r: seq<string>)
      ensures forall n :: n in r <==> n != exclude && (n in hashesInText(e.compressed) || n in hashesInText(e.original))
      ensures InFirstOrder(r, hashesInText(e.compressed) + hashesInText(e.original))
    {
      var texts := hashesInText(e.compressed) + hashesInText(e.original);
      r := [];
      for i := 0 to |texts|
        invariant forall n :: n in r <==> n in texts[..i] && n != exclude
        invariant InFirstOrder(r, texts[..i])
      {
        assert texts[..i + 1] == texts[..i] + [texts[i]];
        InFirstOrderMore(r, texts[..i], texts[i]);
        if texts[i] != exclude && texts[i] !in r {
          r := r + [texts[i]];
        }
      }
      assert texts[..|texts|] == texts;
    }

    /** Whether a live entry outside `ignoring` still names `n`. */
    predicate CoReferenced(n: string, ignoring: set<string>)
      reads this
    {
      exists k :: k in backend && k != n && k !in ignoring && n in MarkersOf(backend[k])
    }

    /** The store midway through a tear-down that began on `b0` and `s0` with `before` visited:
        exactly the visited hashes are gone. */
    ghost predicate Midway(b0: Table, s0: Table, before: set<string>, seen: set<string>)
      reads this
    {
      && Valid() && before <= seen
      && backend == b0 - seen
      && SpillErased(s0, spill, seen - before, cfg.spillReliable)
    }

    lemma ReferencesMinus(b: Table, gone: set<string>)
      ensures References(b - gone) == References(b) - gone
    {
      assert (References(b - gone)).Keys == (References(b) - gone).Keys;
    }

    /** All hashes a tear-down can meet. */
    ghost predicate Bounded(b0: Table, universe: set<string>)
    {
      forall k :: k in b0 ==> MarkersOf(b0[k]) <= universe
    }

    lemma BoundedMinus(b0: Table, gone: set<string>, universe: set<string>, h: string, n: string)
      requires Bounded(b0, universe) && Names(References(b0), h, n)
      ensures Bounded(b0 - gone, universe) && n in universe
    {
      assert MarkersOf(b0[h]) <= universe;
    }

    lemma ReferencesKeys(b0: Table)
      ensures References(b0).Keys == b0.Keys
    {
    }

    lemma MidwayUntouched(before: set<string>)
      requires Valid() && forall k :: k in before ==> k !in backend
      ensures Midway(backend, spill, before, before)
    {
      assert backend - before == backend;
    }

    lemma MidwayStarts(b0: Table, s0: Table, before: set<string>, h: string)
      requires Valid() && forall k :: k in before ==> k !in b0
      requires backend == b0 - {h}
      requires SpillErased(s0, spill, {h}, cfg.spillReliable)
      requires h !in before
      ensures Midway(b0, s0, before, before + {h})
    {
      hide SpillErased, Valid;
      assert before + {h} - before == {h};
      assert b0 - (before + {h}) == b0 - {h};
    }

    lemma NestedAreNames(b0: Table, h: string, nested: seq<string>)
      requires h in b0 ==>
                 forall n :: n in nested <==> n != h && (n in hashesInText(b0[h].compressed) || n in hashesInText(b0[h].original))
      requires h !in b0 ==> nested == []
      ensures forall n :: n in nested <==> Names(References(b0), h, n)
    {
    }

    /** Erases `h` and, in turn, every hash its stored text names that no surviving live entry
        names. `visited` is shared by the whole tear-down; everything in it is already gone from
        the primary. `universe` only bounds the hashes that can be met. */
    method DeleteCascadeDetailed(h: string, visited: set<string>, ghost universe: set<string>)
      returns (out: CascadeOutcome, after: set<string>)
      requires Valid() && forall k :: k in visited ==> k !in backend
      requires visited + {h} <= universe && Bounded(backend, universe)
      modifies this`backend, this`spill, this`stale
      ensures after <= universe && Midway(old(backend), old(spill), visited, after)
      ensures h in visited ==> after == visited && out == CascadeOutcome(false, [], [])
      ensures h !in visited ==>
                Reported(References(old(backend)), old(spill).Keys, cfg.spillReliable, visited, after, h, out)
      decreases universe - visited, 0
    {
      hide *;
      ghost var b0, s0 := backend, spill;
      if h in visited {
        MidwayUntouched(visited);
        return CascadeOutcome(false, [], []), visited;
      }
      var nested := [];
      if h in backend {
        nested := EntryMarkerHashes(backend[h], h);
      }
      ghost var g := References(backend);
      NestedAreNames(backend, h, nested);
      var topDeleted := Delete(h);
      MidwayStarts(b0, s0, visited, h);
      var deleted, skipped;
      after, deleted, skipped := TearNested(h, nested, visited, g, b0, s0, universe);
      var dropped := Members(deleted);
      out := CascadeOutcome(topDeleted, deleted, Without(skipped, dropped));
      ReferencesKeys(b0);
      ReportCloses(g, s0.Keys, cfg.spillReliable, visited, after, h, topDeleted, deleted, skipped);
    }

    /** The loop over the names of `h`, once `h` itself is gone. */
    method TearNested(h: string, nested: seq<string>, visited: set<string>,
                      ghost g: Graph, ghost b0: Table, ghost s0: Table, ghost universe: set<string>)
      returns (after: set<string>, deleted: seq<string>, skipped: seq<string>)
      requires h !in visited && (forall k :: k in visited ==> k !in b0) && Midway(b0, s0, visited, visited + {h})
      requires visited + {h} <= universe && g == References(b0) && Bounded(b0, universe)
      requires forall n :: n in nested <==> Names(g, h, n)
      modifies this`backend, this`spill, this`stale
      ensures after <= universe && Midway(b0, s0, visited, after)
      ensures Progress(g, s0.Keys, cfg.spillReliable, visited, after, h, {}, deleted, skipped)
      decreases universe - (visited + {h}), 2
    {
      hide *;
      after, deleted, skipped := visited + {h}, [], [];
      MembersAre(nested);
      assert nested[0..] == nested && nested[|nested|..] == [];
      MembersAre([]);
      ProgressStarts(g, s0.Keys, cfg.spillReliable, visited, h, Members(nested));
      for i := 0 to |nested|
        invariant visited + {h} <= after <= universe && Midway(b0, s0, visited, after)
        invariant Progress(g, s0.Keys, cfg.spillReliable, visited, after, h, Members(nested[i..]), deleted, skipped)
      {
        TodoStep(nested, i);
        after, deleted, skipped :=
          VisitName(h, nested[i], visited, after, deleted, skipped, g, b0, s0, universe, Members(nested[i..]), Members(nested[i + 1..]));
      }
    }

    /** One turn of that loop. */
    method VisitName(h: string, n: string, visited: set<string>, seen: set<string>,
                     deleted: seq<string>, skipped: seq<string>, ghost g: Graph, ghost b0: Table, ghost s0: Table,
                     ghost universe: set<string>, ghost todo: set<string>, ghost rest: set<string>)
      returns (after: set<string>, deleted': seq<string>, skipped': seq<string>)
      requires h !in visited && (forall k :: k in visited ==> k !in b0)
      requires visited + {h} <= seen <= universe && g == References(b0) && Bounded(b0, universe)
      requires Midway(b0, s0, visited, seen) && Names(g, h, n) && todo - {n} <= rest
      requires Progress(g, s0.Keys, cfg.spillReliable, visited, seen, h, todo, deleted, skipped)
      modifies this`backend, this`spill, this`stale
      ensures seen <= after <= universe && Midway(b0, s0, visited, after)
      ensures Progress(g, s0.Keys, cfg.spillReliable, visited, after, h, rest, deleted', skipped')
      decreases universe - seen, 1
    {
      hide Progress, Bounded, Reported, SpillErased, Valid;
      after, deleted', skipped' := seen, deleted, skipped;
      if n in seen {
        ProgressSkips(g, s0.Keys, cfg.spillReliable, visited, seen, h, todo, rest, deleted, skipped, n);
      } else if CoReferenced(n, seen) {
        ProgressShares(g, s0.Keys, cfg.spillReliable, visited, seen, h, todo, rest, deleted, skipped, n);
        skipped' := skipped + [n];
      } else {
        ghost var s1 := spill;
        ReferencesMinus(b0, seen);
        BoundedMinus(b0, seen, universe, h, n);
        assert forall k :: Names(g, k, n) ==> k in seen;
        var child;
        child, after := DeleteCascadeDetailed(n, seen, universe);
        ErasedKeys(s0, s1, seen - visited, cfg.spillReliable);
        ErasedAgain(s0, s1, spill, visited, seen, after, cfg.spillReliable);
        MinusAgain(b0, seen, after);
        ProgressDescends(g, s0.Keys, cfg.spillReliable, visited, seen, h, todo, rest, deleted, skipped, n, s1.Keys, after, child);
        deleted' := deleted + (if child.topDeleted then [n] else []) + child.nestedDeleted;
        skipped' := skipped + child.nestedSharedSkipped;
      }
    }

    /** `delete_cascade_detailed` on a named hash. The erased set `owned` is the least one that
        holds `h` and every hash named by a member and by nothing but members, whatever order the
        markers are met in; exactly it leaves the primary, and the spill up to faults. Only rows of
        the primary are members and namers. So no row left in the primary names an erased nested
        hash, and none at all does exactly when no spilled row outside the set did. */
    method DeleteCascade(h: string) returns (out: CascadeOutcome, owned: set<string>)
      requires Valid()
      modifies this`backend, this`spill, this`stale
      ensures Valid() && backend == old(backend) - owned
      ensures SpillErased(old(spill), spill, owned, cfg.spillReliable)
      ensures PurgeReported(References(old(backend)), old(spill).Keys, cfg.spillReliable, h, owned, out)
      ensures Step(cfg, old(Now()), Purge(owned), 0.0, Now())
      ensures NothingNames(References(backend), owned - {h})
      ensures cfg.spillReliable ==>
                (NothingNames(References(spill), owned - {h}) <==>
                   forall k :: k in old(spill) && k !in owned ==> MarkersOf(old(spill)[k]) !! owned - {h})
      ensures forall k, n :: k in owned && k in old(backend) && n != k
                             && (n in hashesInText(old(backend)[k].compressed) || n in hashesInText(old(backend)[k].original)) ==>
                n in owned || SomeoneNames(backend, n)
      ensures forall n :: n in owned && n != h ==> SomeoneNames(old(backend), n) && !SomeoneNames(backend, n)
    {
      ghost var universe := {h} + set k, n | k in backend && n in MarkersOf(backend[k]) :: n;
      assert Bounded(backend, universe);
      out, owned := DeleteCascadeDetailed(h, {}, universe);
      ReportIsExact(References(old(backend)), old(spill).Keys, cfg.spillReliable, h, owned, out);
      assert owned - {} == owned;
      CascadeDangles(old(backend), old(spill), spill, h, owned);
      CascadeInTexts(old(backend), h, owned);
    }

    /** Some row of the table other than `n` itself names `n` in one of its two texts. */
    ghost predicate SomeoneNames(t: Table, n: string) {
      exists k :: k in t && k != n && (n in hashesInText(t[k].compressed) || n in hashesInText(t[k].original))
    }

    lemma NamesInTexts(t: Table, k: string, n: string)
      ensures Names(References(t), k, n) <==>
                k in t && k != n && (n in hashesInText(t[k].compressed) || n in hashesInText(t[k].original))
    {
    }

    /** What the erased set is, in terms of the stored texts. */
    lemma CascadeInTexts(b: Table, h: string, owned: set<string>)
      requires OwnedBy(References(b), h, owned)
      ensures forall k, n :: k in owned && k in b && n != k
                             && (n in hashesInText(b[k].compressed) || n in hashesInText(b[k].original)) ==>
                n in owned || SomeoneNames(b - owned, n)
      ensures forall n :: n in owned && n != h ==> SomeoneNames(b, n) && !SomeoneNames(b - owned, n)
    {
      hide References, OwnedBy;
      var g := References(b);
      forall k, n | k in owned && k in b && n != k && n !in owned
                    && (n in hashesInText(b[k].compressed) || n in hashesInText(b[k].original))
        ensures SomeoneNames(b - owned, n)
      {
        NamesInTexts(b, k, n);
        SurvivorsStillNamed(g, h, owned, k, n);
        var j :| j !in owned && Names(g, j, n);
        NamesInTexts(b, j, n);
        assert j in b - owned && (b - owned)[j] == b[j];
      }
      forall n | n in owned && n != h ensures SomeoneNames(b, n) && !SomeoneNames(b - owned, n) {
        OwnedIsOrphaned(g, h, owned, n);
        var m :| m in owned - {n} && Names(g, m, n);
        NamesInTexts(b, m, n);
        forall k | k in b - owned ensures !Names(g, k, n) {
        }
        forall k | k in b - owned ensures Names(g, k, n) <==>
          k in b && k != n && (n in hashesInText(b[k].compressed) || n in hashesInText(b[k].original)) {
          NamesInTexts(b, k, n);
        }
      }
    }

    lemma CascadeDangles(b0: Table, s0: Table, s1: Table, h: string, owned: set<string>)
      requires OwnedBy(References(b0), h, owned) && SpillErased(s0, s1, owned, cfg.spillReliable)
      ensures NothingNames(References(b0 - owned), owned - {h})
      ensures cfg.spillReliable ==>
                (NothingNames(References(s1), owned - {h}) <==>
                   forall k :: k in s0 && k !in owned ==> MarkersOf(s0[k]) !! owned - {h})
    {
      hide OwnedBy, NothingNames;
      ReferencesMinus(b0, owned);
      ReferencesMinus(s0, owned);
      DanglingBeforehand(References(b0), References(s0), h, owned);
      DanglingExactly(References(b0), References(s0) - owned, h, owned, owned - {h});
      if cfg.spillReliable {
        assert s1 == s0 - owned;
      }
    }
  }
}
