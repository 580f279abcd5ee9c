/** What the compression store keeps, as plain values: entries, tiers, and the rules that
    say which entries a capacity eviction keeps and from which tier a hash is served. */
module StoreTables {
  import opened Cardinality
  import opened Wrappers
  import opened EvictionOrder

  /** A cached entry. `retrievalCount` and `searchQueries` are its access bookkeeping. */
  datatype Entry = Entry(
    hash: string,
    original: string,
    compressed: string,
    createdAt: real,
    ttl: int,
    retrievalCount: nat,
    searchQueries: seq<string>)

  type Table = map<string, Entry>

  predicate Expired(e: Entry, now: real) {
    now - e.createdAt > e.ttl as real
  }

  /** Two entries written by the same `store` call, access bookkeeping aside. */
  predicate SameStore(a: Entry, b: Entry) {
    a.original == b.original && a.compressed == b.compressed && a.createdAt == b.createdAt && a.ttl == b.ttl
  }

  function TickOf(k: string, e: Entry): Tick {
    Tick(e.createdAt, k)
  }

  function Unexpired(t: Table, now: real): Table {
    map k | k in t && !Expired(t[k], now) :: t[k]
  }

  ghost predicate SubTable(a: Table, b: Table) {
    forall k :: k in a ==> k in b && a[k] == b[k]
  }

  // ---------- The eviction heap against the live entries ----------

  /** Every live entry has its tuple in the heap. */
  ghost predicate Covers(t: Table, heap: multiset<Tick>) {
    forall k :: k in t ==> TickOf(k, t[k]) in heap
  }

  function Ticks(t: Table): set<Tick> {
    set k | k in t :: TickOf(k, t[k])
  }

  /** The projection the heap is rebuilt from. */
  function CreatedAtIndex(t: Table): multiset<Tick> {
    multiset(Ticks(t))
  }

  lemma {:induction false} TicksCount(t: Table)
    ensures |Ticks(t)| == |t|
    decreases |t|
  {
    if t != map[] {
      var k :| k in t;
      var rest := t - {k};
      var x := TickOf(k, t[k]);
      assert Ticks(t) == Ticks(rest) + {x} by {
        forall j | j in rest ensures TickOf(j, t[j]) == TickOf(j, rest[j]) {
        }
        assert forall y :: y in Ticks(t) ==> y == x || (y.key in rest && y == TickOf(y.key, rest[y.key]));
      }
      assert x !in Ticks(rest);
      TicksCount(rest);
      assert |t| == |rest| + 1;
    }
  }

  lemma {:induction false} CoveredCount(t: Table, heap: multiset<Tick>)
    requires Covers(t, heap)
    ensures |t| <= |heap|
    decreases |t|
  {
    if t != map[] {
      var k :| k in t;
      var x := TickOf(k, t[k]);
      forall j | j in t - {k} ensures TickOf(j, t[j]) in heap - multiset{x} {
        assert TickOf(j, t[j]) != x;
      }
      CoveredCount(t - {k}, heap - multiset{x});
      assert |t - {k}| == |t| - 1;
    }
  }

  // ---------- Which entries an eviction keeps ----------

  /** `kept` is what the rule "at capacity, keep the cap - 1 newest" leaves of `base`. */
  ghost predicate KeepsNewest(kept: Table, base: Table, cap: nat) {
    && SubTable(kept, base)
    && (|base| < cap ==> kept == base)
    && (|base| >= cap ==>
          && |kept| == cap - 1
          && forall d, k :: d in base && d !in kept && k in kept ==> Before(TickOf(d, base[d]), TickOf(k, base[k])))
  }

  /** The rule leaves no choice. */
  lemma KeepsNewestUnique(a: Table, b: Table, base: Table, cap: nat)
    requires KeepsNewest(a, base, cap) && KeepsNewest(b, base, cap)
    ensures a == b
  {
    if a.Keys != b.Keys {
      assert |a.Keys| == |a| && |b.Keys| == |b|;
      if a.Keys <= b.Keys {
        ProperSubsetSize(a.Keys, b.Keys);
      } else if b.Keys <= a.Keys {
        ProperSubsetSize(b.Keys, a.Keys);
      } else {
        var x :| x in a.Keys && x !in b.Keys;
        var y :| y in b.Keys && y !in a.Keys;
        BeforeTotal(TickOf(x, base[x]), TickOf(y, base[y]));
      }
    }
  }

  lemma {:induction false} KeepsNewestExists(base: Table, cap: nat) returns (kept: Table)
    requires 1 <= cap
    ensures KeepsNewest(kept, base, cap)
    decreases |base|
  {
    kept := base;
    if |base| >= cap {
      var any :| any in base;
      assert TickOf(any, base[any]) in CreatedAtIndex(base);
      FirstExists(CreatedAtIndex(base));
      var first :| IsFirst(first, CreatedAtIndex(base));
      var rest := base - {first.key};
      assert |rest| == |base| - 1;
      forall k | k in rest ensures Before(first, TickOf(k, base[k])) {
        assert TickOf(k, base[k]) in Ticks(base);
      }
      kept := KeepsNewestExists(rest, cap);
      KeepsNewestStep(kept, rest, base, first.key, cap);
    }
  }

  lemma KeepsNewestStep(kept: Table, rest: Table, base: Table, h: string, cap: nat)
    requires 1 <= cap && h in base && rest == base - {h} && |rest| == |base| - 1 && |base| >= cap
    requires forall k :: k in rest ==> Before(TickOf(h, base[h]), TickOf(k, base[k]))
    requires KeepsNewest(kept, rest, cap)
    ensures KeepsNewest(kept, base, cap)
  {
    assert |kept| == cap - 1;
  }

  lemma NewestIsThere(base: Table, cap: nat)
    requires 1 <= cap
    ensures exists kept :: KeepsNewest(kept, base, cap)
  {
    var _ := KeepsNewestExists(base, cap);
  }

  /** The entries the capacity rule keeps. */
  ghost function Newest(base: Table, cap: nat): (kept: Table)
    requires 1 <= cap
    ensures KeepsNewest(kept, base, cap)
  {
    NewestIsThere(base, cap);
    var kept :| KeepsNewest(kept, base, cap);
    kept
  }

  /** What demoting `base - kept` does to the spill tier. A reliable spill takes every
      demoted entry, an unreliable one may lose any of them. */
  ghost predicate Demoted(before: Table, after: Table, base: Table, kept: Table, hasSpill: bool, reliable: bool) {
    && (!hasSpill ==> after == before)
    && (hasSpill && reliable ==> forall h :: h in base && h !in kept ==> h in after && after[h] == base[h])
    && (forall h :: h in before && !(h in base && h !in kept) ==> h in after && after[h] == before[h])
    && (forall h :: h in after ==>
          || (h in before && after[h] == before[h])
          || (h in base && h !in kept && after[h] == base[h]))
  }

  /** A purge of `gone` empties both tiers of it, except that a faulting spill may keep rows. */
  ghost predicate SpillErased(before: Table, after: Table, gone: set<string>, reliable: bool) {
    && (forall x :: x in after ==> x in before && after[x] == before[x])
    && (forall x :: x in before && x !in gone ==> x in after)
    && (reliable ==> forall x :: x in gone ==> x !in after)
  }

  // ---------- From which tier a hash is served ----------

  /** The entry `retrieve` serves: the live primary row, or on a primary miss the live
      spilled row. An expired primary row is a miss whatever the spill holds. */
  function Served(backend: Table, spill: Table, h: string, now: real): Option<Entry> {
    if h in backend then
      if Expired(backend[h], now) then None else Some(backend[h])
    else if h in spill && !Expired(spill[h], now) then Some(spill[h])
    else None
  }

  /** What `exists_any_tier` asks: does any tier hold an unexpired row? */
  predicate AnyTierHolds(backend: Table, spill: Table, h: string, now: real) {
    || (h in backend && !Expired(backend[h], now))
    || (h in spill && !Expired(spill[h], now))
  }

  /** `exists_any_tier` promises to answer the question `retrieve` answers. A hit does imply
      it, and the two differ exactly when an expired primary row hides a live spilled one. */
  lemma AnyTierAgreesExactly(backend: Table, spill: Table, h: string, now: real)
    ensures Served(backend, spill, h, now).Some? ==> AnyTierHolds(backend, spill, h, now)
    ensures (AnyTierHolds(backend, spill, h, now) <==> Served(backend, spill, h, now).Some?)
       <==> !(h in backend && Expired(backend[h], now) && h in spill && !Expired(spill[h], now))
  {
  }

  // ---------- The store as a state machine ----------

  const MAX_SEARCH_QUERIES := 10

  /** Every query asked so far: a new one at the end, a known or missing one not at all. */
  function Asked(e: Entry, query: Option<string>): seq<string> {
    if query == None || query == Some("") || query.value in e.searchQueries then e.searchQueries
    else e.searchQueries + [query.value]
  }

  /** Only the latest queries are kept: all of them, or the last ten. */
  predicate Newest10(kept: seq<string>, all: seq<string>) {
    && |kept| <= |all| && kept == all[|all| - |kept|..]
    && (|kept| == |all| || |kept| == 10)
  }

  /** The access bookkeeping of a hit: never touches what was stored. */
  function RecordAccess(e: Entry, query: Option<string>): (r: Entry)
    ensures SameStore(r, e) && r.hash == e.hash && r.retrievalCount == e.retrievalCount + 1
    ensures |e.searchQueries| <= MAX_SEARCH_QUERIES ==>
              |r.searchQueries| <= MAX_SEARCH_QUERIES && Newest10(r.searchQueries, Asked(e, query))
  {
    var queries :=
      if query.Some? && query.value != "" && query.value !in e.searchQueries then
        var all := e.searchQueries + [query.value];
        if |all| > MAX_SEARCH_QUERIES then all[|all| - MAX_SEARCH_QUERIES..] else all
      else e.searchQueries;
    e.(retrievalCount := e.retrievalCount + 1, searchQueries := queries)
  }

  /** A true hash collision: the key is bound to different content. */
  predicate Collides(kept: Table, h: string, e: Entry) {
    h in kept && kept[h].original != e.original
  }

  /** The primary table once `e` is stored under `h`: a collision drops the binding. */
  function Bind(kept: Table, h: string, e: Entry): Table {
    if Collides(kept, h, e) then kept - {h} else kept[h := e]
  }

  /** `spillReliable` says that no spill operation ever faults. */
  datatype Config = Config(maxEntries: nat, hasSpill: bool, spillReliable: bool)

  datatype Tiers = Tiers(backend: Table, spill: Table)

  datatype Op =
    | Put(h: string, e: Entry)
    | Get(h: string, query: Option<string>)
    | Probe(h: string)
    | Purge(gone: set<string>)
    | Sweep
    | Wipe

  /** One operation at clock reading `now`, without the heap. */
  ghost predicate Step(c: Config, s: Tiers, op: Op, now: real, s': Tiers)
    requires 1 <= c.maxEntries
  {
    match op
    case Put(h, e) =>
      var base := Unexpired(s.backend, now);
      var kept := Newest(base, c.maxEntries);
      s'.backend == Bind(kept, h, e) && Demoted(s.spill, s'.spill, base, kept, c.hasSpill, c.spillReliable)
    case Get(h, query) =>
      && s'.backend == (if h !in s.backend then s.backend
                        else if Expired(s.backend[h], now) then s.backend - {h}
                        else s.backend[h := RecordAccess(s.backend[h], query)])
      && (s'.spill == s.spill || (h in s.spill && Expired(s.spill[h], now) && s'.spill == s.spill - {h}))
    case Probe(h) =>
      && s'.spill == s.spill
      && (s'.backend == s.backend || (h in s.backend && Expired(s.backend[h], now) && s'.backend == s.backend - {h}))
    case Purge(gone) =>
      s'.backend == s.backend - gone && SpillErased(s.spill, s'.spill, gone, c.spillReliable)
    case Sweep =>
      s'.backend == Unexpired(s.backend, now) && s'.spill == s.spill
    case Wipe =>
      s'.backend == map[] && (s'.spill == map[] || (!c.spillReliable && s'.spill == s.spill))
  }
}
