/** Whole runs of the store: what can be retrieved after any sequence of operations. */
module StoreRuns {
  import opened Wrappers
  import opened EvictionOrder
  import opened StoreTables

  datatype Event = Event(op: Op, now: real)

  /** `states[i + 1]` is what `events[i]` makes of `states[i]`, the clock never running back. */
  ghost predicate Run(c: Config, states: seq<Tiers>, events: seq<Event>) {
    && 1 <= c.maxEntries
    && |states| == |events| + 1
    && states[0] == Tiers(map[], map[])
    && (forall i :: 0 <= i < |events| ==> Step(c, states[i], events[i].op, events[i].now, states[i + 1]))
    && (forall i, j :: 0 <= i <= j < |events| ==> events[i].now <= events[j].now)
  }

  /** A clock reading no earlier than the first `n` events. */
  ghost predicate NotBefore(events: seq<Event>, n: nat, t: real)
    requires n <= |events|
  {
    forall i :: 0 <= i < n ==> events[i].now <= t
  }

  /** The last successful store of each hash since it was last purged, after `n` events. */
  ghost function Latest(c: Config, states: seq<Tiers>, events: seq<Event>, n: nat): Table
    requires 1 <= c.maxEntries && |states| == |events| + 1 && n <= |events|
  {
    if n == 0 then map[] else
      var before := Latest(c, states, events, n - 1);
      match events[n - 1].op
      case Put(h, e) =>
        var kept := Newest(Unexpired(states[n - 1].backend, events[n - 1].now), c.maxEntries);
        if Collides(kept, h, e) then before - {h} else before[h := e]
      case Purge(gone) => before - gone
      case Wipe => map[]
      case _ => before
  }

  ghost predicate Holds(s: Tiers, h: string, now: real) {
    AnyTierHolds(s.backend, s.spill, h, now)
  }

  /** Every last store that is still unexpired is held by the tier `retrieve` looks in. */
  ghost predicate Recoverable(latest: Table, s: Tiers, now: real) {
    forall h :: h in latest && !Expired(latest[h], now) ==>
                  && Served(s.backend, s.spill, h, now).Some?
                  && SameStore(Served(s.backend, s.spill, h, now).value, latest[h])
  }

  lemma PutKeepsRecoverable(c: Config, latest: Table, s: Tiers, clock: real, h: string, e: Entry, now: real, s': Tiers)
    requires 1 <= c.maxEntries && c.hasSpill && c.spillReliable && clock <= now
    requires Recoverable(latest, s, clock) && Step(c, s, Put(h, e), now, s')
    ensures var kept := Newest(Unexpired(s.backend, now), c.maxEntries);
            Recoverable(if Collides(kept, h, e) then latest - {h} else latest[h := e], s', now)
  {
    var base := Unexpired(s.backend, now);
    var kept := Newest(base, c.maxEntries);
    var after := if Collides(kept, h, e) then latest - {h} else latest[h := e];
    forall x | x in after && !Expired(after[x], now)
      ensures Served(s'.backend, s'.spill, x, now).Some? && SameStore(Served(s'.backend, s'.spill, x, now).value, after[x])
    {
      if x != h {
        assert x in latest && !Expired(latest[x], clock);
        assert Served(s.backend, s.spill, x, clock).Some?;
        assert x in s.backend ==> x in base;
      }
    }
  }

  lemma StepKeepsRecoverable(c: Config, latest: Table, s: Tiers, clock: real, op: Op, now: real, s': Tiers)
    requires 1 <= c.maxEntries && c.spillReliable && clock <= now && !op.Put?
    requires Recoverable(latest, s, clock) && Step(c, s, op, now, s')
    ensures op.Purge? ==> Recoverable(latest - op.gone, s', now)
    ensures op.Wipe? ==> Recoverable(map[], s', now)
    ensures !op.Purge? && !op.Wipe? ==> Recoverable(latest, s', now)
  {
    forall x | x in latest && !Expired(latest[x], now) && !op.Wipe? && !(op.Purge? && x in op.gone)
      ensures Served(s'.backend, s'.spill, x, now).Some? && SameStore(Served(s'.backend, s'.spill, x, now).value, latest[x])
    {
      assert !Expired(latest[x], clock);
      assert Served(s.backend, s.spill, x, clock).Some?;
    }
  }

  /** With a spill that never faults, any hash whose last store is unexpired and unpurged is
      served, with that store's content, at any later clock reading: however many entries were
      evicted, whichever tier holds it. */
  lemma {:induction false} LastStoreStaysRetrievable(c: Config, states: seq<Tiers>, events: seq<Event>, n: nat, now: real)
    requires Run(c, states, events) && c.hasSpill && c.spillReliable
    requires n <= |events| && NotBefore(events, n, now)
    ensures Recoverable(Latest(c, states, events, n), states[n], now)
  {
    if n > 0 {
      var t := events[n - 1].now;
      LastStoreStaysRetrievable(c, states, events, n - 1, t);
      var before := Latest(c, states, events, n - 1);
      assert Step(c, states[n - 1], events[n - 1].op, t, states[n]);
      match events[n - 1].op {
        case Put(h, e) =>
          PutKeepsRecoverable(c, before, states[n - 1], t, h, e, t, states[n]);
        case _ =>
          StepKeepsRecoverable(c, before, states[n - 1], t, events[n - 1].op, t, states[n]);
      }
      LaterRecoverable(Latest(c, states, events, n), states[n], t, now);
    }
  }

  lemma LaterRecoverable(latest: Table, s: Tiers, t: real, now: real)
    requires t <= now && Recoverable(latest, s, t)
    ensures Recoverable(latest, s, now)
  {
    forall h | h in latest && !Expired(latest[h], now)
      ensures Served(s.backend, s.spill, h, now).Some? && SameStore(Served(s.backend, s.spill, h, now).value, latest[h])
    {
      assert !Expired(latest[h], t);
    }
  }

  lemma StepKeepsGone(c: Config, s: Tiers, op: Op, now: real, s': Tiers, h: string, later: real)
    requires 1 <= c.maxEntries && Step(c, s, op, now, s') && now <= later
    requires !(op.Put? && op.h == h) && !Holds(s, h, now)
    ensures !Holds(s', h, later)
  {
    if op.Put? {
      var base := Unexpired(s.backend, now);
      assert h !in base;
    }
  }

  /** Once no tier holds a live row for a hash, no operation brings one back until the hash is
      stored again, whether or not spill operations fault. So a read-back that finds nothing
      rules out every later hit. */
  lemma {:induction false} GoneUntilStoredAgain(c: Config, states: seq<Tiers>, events: seq<Event>,
                                                i: nat, j: nat, h: string, since: real, now: real)
    requires Run(c, states, events) && i <= j <= |events|
    requires !Holds(states[i], h, since) && NotBefore(events, j, now) && since <= now
    requires forall k :: i <= k < j ==> since <= events[k].now
    requires forall k :: i <= k < j ==> !(events[k].op.Put? && events[k].op.h == h)
    ensures !Holds(states[j], h, now)
    ensures Served(states[j].backend, states[j].spill, h, now).None?
  {
    if i < j {
      var t := events[j - 1].now;
      GoneUntilStoredAgain(c, states, events, i, j - 1, h, since, t);
      assert Step(c, states[j - 1], events[j - 1].op, t, states[j]);
      StepKeepsGone(c, states[j - 1], events[j - 1].op, t, states[j], h, now);
    }
  }

  // ---------- Two promises that hold only while no stale copy is spilled ----------

  /** After a true collision neither content is meant to be served. `retrieve` does miss the
      key, unless the spill still holds a live row of it: the collision drops the primary only. */
  lemma CollisionMissesExactly(c: Config, s: Tiers, h: string, e: Entry, now: real, s': Tiers)
    requires 1 <= c.maxEntries && Step(c, s, Put(h, e), now, s')
    requires Collides(Newest(Unexpired(s.backend, now), c.maxEntries), h, e)
    ensures Served(s'.backend, s'.spill, h, now).None? <==> !(h in s.spill && !Expired(s.spill[h], now))
  {
  }

  function Row(h: string, original: string, at: real, ttl: int): Entry {
    Entry(h, original, "", at, ttl, 0, [])
  }

  lemma NewestOfTwo(base: Table, older: string, newer: string)
    requires base.Keys == {older, newer} && Before(TickOf(older, base[older]), TickOf(newer, base[newer]))
    ensures Newest(base, 2) == map[newer := base[newer]]
  {
    BeforeTotal(TickOf(older, base[older]), TickOf(newer, base[newer]));
    assert |base.Keys| == 2 && |base| == |base.Keys|;
    KeepsNewestUnique(map[newer := base[newer]], Newest(base, 2), base, 2);
  }

  const C2 := Config(2, true, true)

  lemma PutBelowCapacity(s: Tiers, h: string, e: Entry, now: real)
    requires |s.backend| < 2 && h !in s.backend && forall k :: k in s.backend ==> !Expired(s.backend[k], now)
    ensures Step(C2, s, Put(h, e), now, Tiers(s.backend[h := e], s.spill))
  {
    assert Unexpired(s.backend, now) == s.backend;
  }

  lemma PutAtCapacity(s: Tiers, older: string, newer: string, h: string, e: Entry, now: real)
    requires s.backend.Keys == {older, newer} && h != newer && older != newer
    requires Before(TickOf(older, s.backend[older]), TickOf(newer, s.backend[newer]))
    requires !Expired(s.backend[older], now) && !Expired(s.backend[newer], now)
    ensures Step(C2, s, Put(h, e), now,
                 Tiers(map[newer := s.backend[newer], h := e], s.spill[older := s.backend[older]]))
  {
    assert Unexpired(s.backend, now) == s.backend;
    NewestOfTwo(s.backend, older, newer);
    assert map[newer := s.backend[newer]][h := e] == map[newer := s.backend[newer], h := e];
  }

  /** Keys the store accepts: hex, and long enough. */
  const KEY_A := "aaaaaa"
  const KEY_B := "bbbbbb"
  const KEY_D := "dddddd"

  const A0 := Row(KEY_A, "A", 0.0, 100)
  const B1 := Row(KEY_B, "B", 1.0, 100)
  const D2 := Row(KEY_D, "D", 2.0, 100)
  const A3 := Row(KEY_A, "A", 3.0, 1)
  const S0 := Tiers(map[], map[])
  const S1 := Tiers(map[KEY_A := A0], map[])
  const S2 := Tiers(map[KEY_A := A0, KEY_B := B1], map[])
  const S3 := Tiers(map[KEY_B := B1, KEY_D := D2], map[KEY_A := A0])
  const S4 := Tiers(map[KEY_D := D2, KEY_A := A3], map[KEY_A := A0, KEY_B := B1])

  lemma FirstTwoPuts()
    ensures Step(C2, S0, Put(KEY_A, A0), 0.0, S1) && Step(C2, S1, Put(KEY_B, B1), 1.0, S2)
  {
    PutBelowCapacity(S0, KEY_A, A0, 0.0);
    assert S0.backend[KEY_A := A0] == S1.backend;
    PutBelowCapacity(S1, KEY_B, B1, 1.0);
    assert S1.backend[KEY_B := B1] == S2.backend;
  }

  lemma ThirdPut()
    ensures Step(C2, S2, Put(KEY_D, D2), 2.0, S3)
  {
    PutAtCapacity(S2, KEY_A, KEY_B, KEY_D, D2, 2.0);
    assert S2.spill[KEY_A := A0] == S3.spill;
  }

  lemma FourthPut()
    ensures Step(C2, S3, Put(KEY_A, A3), 3.0, S4)
  {
    PutAtCapacity(S3, KEY_B, KEY_D, KEY_A, A3, 3.0);
    assert S3.spill[KEY_B := B1] == S4.spill;
  }

  ghost predicate Reachable(c: Config, s: Tiers, now: real) {
    exists states, events :: Run(c, states, events) && states[|events|] == s && NotBefore(events, |events|, now)
  }

  lemma ReachableStep(c: Config, s: Tiers, t: real, op: Op, now: real, s': Tiers)
    requires Reachable(c, s, t) && t <= now && Step(c, s, op, now, s')
    ensures Reachable(c, s', now)
  {
    hide Step;
    var states, events :| Run(c, states, events) && states[|events|] == s && NotBefore(events, |events|, t);
    var states', events' := states + [s'], events + [Event(op, now)];
    forall i | 0 <= i < |events'|
      ensures Step(c, states'[i], events'[i].op, events'[i].now, states'[i + 1]) && events'[i].now <= now
    {
    }
    assert Run(c, states', events');
  }

  /** Capacity two, a reliable spill: storing a, b, d and then a again, now short-lived, leaves a
      short-lived a in the primary over the long-lived one demoted when d was stored. */
  lemma ShadowedCopyReachable()
    ensures Reachable(C2, S4, 3.0)
  {
    assert Run(C2, [S0], []);
    assert NotBefore([], 0, 0.0);
    FirstTwoPuts();
    ReachableStep(C2, S0, 0.0, Put(KEY_A, A0), 0.0, S1);
    ReachableStep(C2, S1, 0.0, Put(KEY_B, B1), 1.0, S2);
    ThirdPut();
    ReachableStep(C2, S2, 1.0, Put(KEY_D, D2), 2.0, S3);
    FourthPut();
    ReachableStep(C2, S3, 2.0, Put(KEY_A, A3), 3.0, S4);
  }

  /** The two do part: from there, at clock 10 `exists_any_tier` holds and `retrieve`
      misses, and the same `retrieve` repeated hits. */
  lemma ReadBackAndRetrievePart(reaped: Tiers)
    requires Step(C2, S4, Get(KEY_A, None), 10.0, reaped)
    ensures AnyTierHolds(S4.backend, S4.spill, KEY_A, 10.0) && Served(S4.backend, S4.spill, KEY_A, 10.0).None?
    ensures Served(reaped.backend, reaped.spill, KEY_A, 10.0) == Some(A0)
  {
  }

  lemma NothingExpiredYet()
    ensures Unexpired(S4.backend, 4.0) == S4.backend
  {
  }

  lemma DemotedKeeps(before: Table, after: Table, base: Table, kept: Table, h: string)
    requires Demoted(before, after, base, kept, true, true) && h in kept && h in before
    ensures h in after && after[h] == before[h]
  {
  }

  /** And a collision there leaves the first content served. */
  lemma CollisionStillServed(collided: Tiers)
    requires Step(C2, S4, Put(KEY_A, Row(KEY_A, "other", 4.0, 100)), 4.0, collided)
    ensures KEY_A !in collided.backend
    ensures Served(collided.backend, collided.spill, KEY_A, 4.0) == Some(A0)
  {
    NothingExpiredYet();
    var kept := Newest(S4.backend, 2);
    NewestOfTwo(S4.backend, KEY_D, KEY_A);
    assert kept == map[KEY_A := A3];
    assert Collides(kept, KEY_A, Row(KEY_A, "other", 4.0, 100));
    assert KEY_A in S4.backend && KEY_A in kept;
    DemotedKeeps(S4.spill, collided.spill, S4.backend, kept, KEY_A);
  }
}
