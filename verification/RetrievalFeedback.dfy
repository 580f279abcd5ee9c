/** The bounded, sliding-window aggregator of retrieval signals, against the verdict the full
    unbounded history would give. */
module RetrievalFeedback {
  import opened Cardinality
  import opened FeedbackWindow

  type Buckets = map<ShapeKey, seq<real>>

  /** What an aggregator is tuned to. */
  datatype Tuning = Tuning(window: real, hintMin: nat, skipMin: nat, multiplier: real, maxEvents: nat, maxShapes: nat)
  {
    predicate Coherent() {
      && window > 0.0 && 1 <= hintMin <= skipMin <= maxEvents
      && multiplier >= 1.0 && 1 <= maxShapes
    }
  }

  datatype Hints = Hints(multiplier: real, skip: bool, retrievalsInWindow: nat)

  datatype Verdict = Neutral | Relax | Skip

  function VerdictOf(t: Tuning, count: nat): Verdict {
    if count >= t.skipMin then Skip else if count >= t.hintMin then Relax else Neutral
  }

  predicate NoStronger(a: Verdict, b: Verdict) {
    a.Neutral? || b.Skip? || a == b
  }

  function Bucket(events: Buckets, shape: ShapeKey): seq<real> {
    if shape in events then events[shape] else []
  }

  /** The tool-anonymous shape a named-tool lookup also counts. */
  function Anonymous(shape: ShapeKey): ShapeKey {
    ShapeKey("", shape.contentType)
  }

  /** The events in the window that a lookup of `shape` is about, over the full history. */
  function InWindow(history: seq<Event>, shape: ShapeKey, cutoff: real): nat {
    CountAfter(Times(history, shape), cutoff)
    + if shape.tool != "" then CountAfter(Times(history, Anonymous(shape)), cutoff) else 0
  }

  /** The same, each shape counted up to the bound of its bucket. */
  function InWindowUpTo(history: seq<Event>, shape: ShapeKey, cutoff: real, limit: nat): nat {
    UpTo(CountAfter(Times(history, shape), cutoff), limit)
    + if shape.tool != "" then UpTo(CountAfter(Times(history, Anonymous(shape)), cutoff), limit) else 0
  }

  function UpTo(n: nat, limit: nat): nat {
    if n <= limit then n else limit
  }

  /** The recorded retrievals after the cutoff, of the shape itself or, for a named tool, of no tool
      and the same content type. */
  ghost function Relevant(history: seq<Event>, shape: ShapeKey, cutoff: real): set<int> {
    set i | 0 <= i < |history| && history[i].at > cutoff
            && (history[i].shape == shape
                || (shape.tool != "" && history[i].shape.tool == "" && history[i].shape.contentType == shape.contentType))
  }

  ghost function Of(history: seq<Event>, shape: ShapeKey, cutoff: real): set<int> {
    set i | 0 <= i < |history| && history[i].at > cutoff && history[i].shape == shape
  }

  lemma {:induction false} CountAfterOf(history: seq<Event>, shape: ShapeKey, cutoff: real)
    ensures CountAfter(Times(history, shape), cutoff) == |Of(history, shape, cutoff)|
  {
    if history == [] {
      assert Of(history, shape, cutoff) == {};
    } else {
      var n := |history| - 1;
      var front, last := history[..n], history[n];
      CountAfterOf(front, shape, cutoff);
      CountAfterJoin(Times(front, shape), if last.shape == shape then [last.at] else [], cutoff);
      assert CountAfter([last.at], cutoff) == if last.at > cutoff then 1 else 0;
      assert Of(history, shape, cutoff) ==
             Of(front, shape, cutoff) + if last.shape == shape && last.at > cutoff then {n} else {};
    }
  }

  /** What a lookup is about is counted once each. */
  lemma InWindowCounts(history: seq<Event>, shape: ShapeKey, cutoff: real)
    ensures InWindow(history, shape, cutoff) == |Relevant(history, shape, cutoff)|
  {
    CountAfterOf(history, shape, cutoff);
    CountAfterOf(history, Anonymous(shape), cutoff);
    var own, anonymous := Of(history, shape, cutoff), Of(history, Anonymous(shape), cutoff);
    if shape.tool == "" {
      assert Relevant(history, shape, cutoff) == own;
    } else {
      assert Relevant(history, shape, cutoff) == own + anonymous && own !! anonymous;
    }
  }

  /** The shapes with an event in the window. */
  ghost function ActiveShapes(history: seq<Event>, cutoff: real): set<ShapeKey> {
    set e | e in history && e.at > cutoff :: e.shape
  }

  /** Each bucket is a non-empty, bounded run of its shape's latest events. */
  ghost predicate Tracks(events: Buckets, history: seq<Event>, limit: nat) {
    forall s :: s in events ==> 0 < |events[s]| <= limit && Suffix(events[s], Times(history, s))
  }

  /** No shape lost an event that still counts. */
  ghost predicate Faithful(events: Buckets, history: seq<Event>, limit: nat, cutoff: real) {
    forall s: ShapeKey :: Enough(Bucket(events, s), Times(history, s), limit, cutoff)
  }

  // ---------- What the steps keep ----------

  lemma FaithfulLater(events: Buckets, history: seq<Event>, limit: nat, cutoff: real, later: real)
    requires Faithful(events, history, limit, cutoff) && cutoff <= later
    ensures Faithful(events, history, limit, later)
  {
    forall s: ShapeKey ensures Enough(Bucket(events, s), Times(history, s), limit, later) {
      EnoughLater(Bucket(events, s), Times(history, s), limit, cutoff, later);
    }
  }

  predicate Decayed(times: seq<real>, cutoff: real) {
    times == [] || times[|times| - 1] <= cutoff
  }

  /** Every shape still in a bucket that has not decayed is active in the history. */
  lemma LiveBucketsAreActive(events: Buckets, history: seq<Event>, limit: nat, cutoff: real)
    requires Tracks(events, history, limit)
    ensures forall s :: s in events && !Decayed(events[s], cutoff) ==> s in ActiveShapes(history, cutoff)
  {
    forall s | s in events && !Decayed(events[s], cutoff)
      ensures s in ActiveShapes(history, cutoff)
    {
      var all := Times(history, s);
      assert events[s][|events[s]| - 1] == all[|all| - 1];
      TimesComeFromEvents(history, s, |all| - 1);
    }
  }

  lemma {:induction false} TimesComeFromEvents(history: seq<Event>, shape: ShapeKey, i: nat)
    requires i < |Times(history, shape)|
    ensures exists e :: e in history && e.shape == shape && e.at == Times(history, shape)[i]
  {
    var front, last := history[..|history| - 1], history[|history| - 1];
    if i < |Times(front, shape)| {
      TimesComeFromEvents(front, shape, i);
      var e :| e in front && e.shape == shape && e.at == Times(front, shape)[i];
      assert e in history;
    } else {
      assert last in history;
    }
  }

  /** Reaping decayed buckets loses nothing that counts. */
  lemma ReapKeepsFaithful(events: Buckets, kept: Buckets, history: seq<Event>, limit: nat, cutoff: real, now: real)
    requires Tracks(events, history, limit) && Faithful(events, history, limit, cutoff) && OrderedHistory(history, now)
    requires forall s :: s in kept ==> s in events && kept[s] == events[s]
    requires forall s :: s in events && s !in kept ==> Decayed(events[s], cutoff)
    ensures Faithful(kept, history, limit, cutoff)
  {
    forall s: ShapeKey ensures Enough(Bucket(kept, s), Times(history, s), limit, cutoff) {
      assert Enough(Bucket(events, s), Times(history, s), limit, cutoff);
      if s in events && s !in kept {
        DecayedLosesNothing(events[s], Times(history, s), history, limit, cutoff, now, s);
      }
    }
  }

  lemma DecayedLosesNothing(kept: seq<real>, all: seq<real>, history: seq<Event>, limit: nat, cutoff: real, now: real, s: ShapeKey)
    requires all == Times(history, s) && OrderedHistory(history, now)
    requires Enough(kept, all, limit, cutoff) && Decayed(kept, cutoff)
    ensures Enough([], all, limit, cutoff)
  {
    TimesOrdered(history, now, s);
    var d := |all| - |kept|;
    assert forall j :: 0 <= j < |kept| ==> kept[j] == all[d + j];
    forall i | 0 <= i < |kept| ensures kept[i] <= cutoff {
      assert all[d + i] <= all[|all| - 1];
    }
    EnoughPruned(kept, all, limit, cutoff, now, |kept|);
    assert kept[|kept|..] == [];
  }

  /** Recording appends to the history and to the shape's bucket alike. */
  lemma RecordKeeps(events: Buckets, history: seq<Event>, limit: nat, cutoff: real, shape: ShapeKey, now: real)
    requires 0 < limit && Tracks(events, history, limit)
    ensures var after := events[shape := Append(Bucket(events, shape), now, limit)];
            && Tracks(after, history + [Event(shape, now)], limit)
            && (Faithful(events, history, limit, cutoff) ==> Faithful(after, history + [Event(shape, now)], limit, cutoff))
  {
    var e := Event(shape, now);
    var after := events[shape := Append(Bucket(events, shape), now, limit)];
    forall s: ShapeKey
      ensures s in after ==> 0 < |after[s]| <= limit && Suffix(after[s], Times(history + [e], s))
      ensures Enough(Bucket(events, s), Times(history, s), limit, cutoff) ==>
                Enough(Bucket(after, s), Times(history + [e], s), limit, cutoff)
    {
      TimesAppend(history, e, s);
      if s == shape {
        EnoughAppended(Bucket(events, s), Times(history, s), limit, cutoff, now);
      } else {
        assert Times(history, s) + [] == Times(history, s);
      }
    }
  }

  function Undecayed(events: Buckets, cutoff: real): Buckets {
    map s | s in events && !Decayed(events[s], cutoff) :: events[s]
  }

  lemma UndecayedSize(events: Buckets, live: Buckets, cutoff: real)
    requires live == Undecayed(events, cutoff)
    ensures |live| <= |events|
  {
    SubsetSize(live.Keys, events.Keys);
    assert |live.Keys| == |live| && |events.Keys| == |events|;
  }

  predicate IsStalest(s: ShapeKey, live: Buckets)
    requires forall x :: x in live ==> live[x] != []
  {
    s in live && forall x :: x in live ==> live[s][|live[s]| - 1] <= live[x][|live[x]| - 1]
  }

  lemma {:induction false} StalestExists(live: Buckets)
    requires live != map[] && forall x :: x in live ==> live[x] != []
    ensures exists s :: IsStalest(s, live)
    decreases |live|
  {
    var x :| x in live;
    var rest := live - {x};
    assert |rest| == |live| - 1;
    if rest == map[] {
      assert forall y :: y in live ==> y == x || y in rest;
      assert IsStalest(x, live);
    } else {
      StalestExists(rest);
      var s :| IsStalest(s, rest);
      var t := if live[x][|live[x]| - 1] <= live[s][|live[s]| - 1] then x else s;
      assert forall y :: y in live ==> y == x || y in rest;
      assert IsStalest(t, live);
    }
  }

  /** The bucket whose newest event is oldest. Python takes the first of several such; here it
      may be any. */
  method Stalest(live: Buckets) returns (s: ShapeKey)
    requires live != map[] && forall x :: x in live ==> live[x] != []
    ensures IsStalest(s, live) && s in live
  {
    StalestExists(live);
    s :| s in live && IsStalest(s, live);
  }

  ghost predicate RoomMade(before: Buckets, after: Buckets, forced: bool, t: Tuning, now: real) {
    var live := Undecayed(before, now - t.window);
    if forced then |live| >= t.maxShapes && exists s :: IsStalest(s, live) && after == live - {s}
    else after == live || after == before
  }

  /** What is kept is newer than the cutoff. What went is not, or, when room was forced, no newer than
      anything kept. */
  ghost predicate Reaped(before: Buckets, after: Buckets, forced: bool, cutoff: real) {
    && (forall s :: s in after ==> s in before && after[s] == before[s] && after[s] != [] && after[s][|after[s]| - 1] > cutoff)
    && (forall s :: s in before && s !in after && before[s] != [] ==>
          || before[s][|before[s]| - 1] <= cutoff
          || (forced && forall t :: t in after ==> before[s][|before[s]| - 1] <= after[t][|after[t]| - 1]))
  }

  lemma ReapedLive(before: Buckets, live: Buckets, cutoff: real)
    requires live == Undecayed(before, cutoff)
    ensures Reaped(before, live, false, cutoff) && forall x :: x in live ==> live[x] != []
  {
  }

  lemma ReapedStalest(before: Buckets, live: Buckets, stalest: ShapeKey, cutoff: real)
    requires Reaped(before, live, false, cutoff) && (forall x :: x in live ==> live[x] != []) && IsStalest(stalest, live)
    ensures Reaped(before, live - {stalest}, true, cutoff)
  {
  }

  /** The decayed buckets go, and if that leaves no room, the stalest of the others. */
  method MakeRoom(events: Buckets, room: nat, cutoff: real) returns (after: Buckets, forced: bool)
    requires room >= 1 && |events| <= room
    ensures |after| < room && Reaped(events, after, forced, cutoff)
    ensures var live := Undecayed(events, cutoff);
            if forced then |live| >= room && exists s :: IsStalest(s, live) && after == live - {s} else after == live
  {
    hide Reaped, IsStalest, Undecayed;
    var live := Undecayed(events, cutoff);
    UndecayedSize(events, live, cutoff);
    ReapedLive(events, live, cutoff);
    after, forced := live, |live| >= room;
    if forced {
      var stalest := Stalest(live);
      ReapedStalest(events, live, stalest, cutoff);
      OneFewer(live, stalest);
      after := live - {stalest};
    }
  }

  lemma OneFewer(live: Buckets, s: ShapeKey)
    requires s in live
    ensures |live - {s}| == |live| - 1
  {
  }

  lemma RoomIsMade(before: Buckets, after: Buckets, forced: bool, t: Tuning, now: real)
    requires var live := Undecayed(before, now - t.window);
             if forced then |live| >= t.maxShapes && exists s :: IsStalest(s, live) && after == live - {s} else after == live
    ensures RoomMade(before, after, forced, t, now)
  {
  }

  lemma RoomUnneeded(events: Buckets, t: Tuning, now: real)
    ensures RoomMade(events, events, false, t, now)
  {
  }

  /** Making room only ever costs an event that still counts when more shapes are active than
      there is room for. */
  lemma RoomIsHarmless(before: Buckets, after: Buckets, forced: bool, history: seq<Event>, t: Tuning, clock: real,
                       shape: ShapeKey, now: real)
    requires t.Coherent() && clock <= now && RoomMade(before, after, forced, t, now)
    requires Tracks(before, history, t.maxEvents) && OrderedHistory(history, clock) && (forced ==> shape !in before)
    ensures Tracks(after, history, t.maxEvents)
    ensures !forced && Faithful(before, history, t.maxEvents, clock - t.window) ==>
              Faithful(after, history, t.maxEvents, now - t.window)
    ensures forced ==> |ActiveShapes(history + [Event(shape, now)], now - t.window)| > t.maxShapes
  {
    hide Tracks, Faithful, OrderedHistory, ActiveShapes, Undecayed, IsStalest;
    var cutoff := now - t.window;
    var live := Undecayed(before, cutoff);
    UndecayedAre(before, cutoff);
    if forced {
      var s :| after == live - {s};
      TracksFewer(before, after, history, t.maxEvents);
      LiveBucketsAreActive(before, history, t.maxEvents, cutoff);
      ForcedMeansCrowded(live, history, cutoff, shape, now);
    } else {
      TracksFewer(before, after, history, t.maxEvents);
      if Faithful(before, history, t.maxEvents, clock - t.window) {
        FaithfulLater(before, history, t.maxEvents, clock - t.window, cutoff);
        ReapKeepsFaithful(before, after, history, t.maxEvents, cutoff, clock);
      }
    }
  }

  lemma UndecayedAre(events: Buckets, cutoff: real)
    ensures forall s :: s in Undecayed(events, cutoff) <==> s in events && !Decayed(events[s], cutoff)
    ensures forall s :: s in Undecayed(events, cutoff) ==> Undecayed(events, cutoff)[s] == events[s]
  {
  }

  lemma TracksFewer(before: Buckets, after: Buckets, history: seq<Event>, limit: nat)
    requires Tracks(before, history, limit) && forall s :: s in after ==> s in before && after[s] == before[s]
    ensures Tracks(after, history, limit)
  {
  }

  lemma ForcedMeansCrowded(live: Buckets, history: seq<Event>, cutoff: real, shape: ShapeKey, now: real)
    requires forall s :: s in live ==> s in ActiveShapes(history, cutoff)
    requires shape !in live && now > cutoff
    ensures |ActiveShapes(history + [Event(shape, now)], cutoff)| > |live|
  {
    var noted := history + [Event(shape, now)];
    assert noted[|history|] == Event(shape, now);
    forall s | s in live.Keys + {shape} ensures s in ActiveShapes(noted, cutoff) {
      if s != shape {
        var e :| e in history && e.at > cutoff && e.shape == s;
        assert e in noted;
      }
    }
    SubsetSize(live.Keys + {shape}, ActiveShapes(noted, cutoff));
    assert |live.Keys + {shape}| == |live.Keys| + 1 && |live.Keys| == |live|;
  }

  lemma OrderedAppend(history: seq<Event>, clock: real, e: Event)
    requires OrderedHistory(history, clock) && clock <= e.at
    ensures OrderedHistory(history + [e], e.at)
  {
  }

  lemma BucketBound(events: Buckets, history: seq<Event>, limit: nat, shape: ShapeKey)
    requires Tracks(events, history, limit)
    ensures |Bucket(events, shape)| <= limit
  {
  }

  lemma SetSize(events: Buckets, shape: ShapeKey, times: seq<real>)
    ensures |events[shape := times]| == |events| + if shape in events then 0 else 1
  {
    var after := events[shape := times];
    if shape in events {
      assert after.Keys == events.Keys;
    } else {
      assert after.Keys == events.Keys + {shape};
    }
    assert |after.Keys| == |after| && |events.Keys| == |events|;
  }

  /** What is left of a bucket once its aged head is popped. */
  function Prune(times: seq<real>, cutoff: real): seq<real> {
    if times != [] && times[0] <= cutoff then Prune(times[1..], cutoff) else times
  }

  /** The table after one shape was counted: an emptied bucket is dropped. */
  function Pruned(events: Buckets, shape: ShapeKey, cutoff: real): Buckets {
    var kept := Prune(Bucket(events, shape), cutoff);
    if kept == [] then events - {shape} else events[shape := kept]
  }

  lemma {:induction false} PruneDropsAged(times: seq<real>, cutoff: real)
    ensures var n := |times| - |Prune(times, cutoff)|;
            0 <= n && Prune(times, cutoff) == times[n..] && forall i :: 0 <= i < n ==> times[i] <= cutoff
  {
    if times != [] && times[0] <= cutoff {
      PruneDropsAged(times[1..], cutoff);
      var n := |times| - |Prune(times, cutoff)|;
      assert times[1..][n - 1..] == times[n..];
      forall i | 0 <= i < n ensures times[i] <= cutoff {
        assert i > 0 ==> times[i] == times[1..][i - 1];
      }
    }
  }

  /** On a non-decreasing bucket, all that is left counts, and nothing else did. */
  lemma {:induction false} PruneCounts(times: seq<real>, cutoff: real, now: real)
    requires Ordered(times, now)
    ensures |Prune(times, cutoff)| == CountAfter(times, cutoff)
  {
    if times != [] {
      if times[0] <= cutoff {
        assert Ordered(times[1..], now);
        PruneCounts(times[1..], cutoff, now);
      } else {
        CountAfterAll(times, cutoff);
      }
    }
  }

  lemma BucketOrdered(events: Buckets, history: seq<Event>, limit: nat, clock: real, shape: ShapeKey)
    requires Tracks(events, history, limit) && OrderedHistory(history, clock)
    ensures Ordered(Bucket(events, shape), clock)
  {
    if shape in events {
      TimesOrdered(history, clock, shape);
      var all, kept := Times(history, shape), events[shape];
      var d := |all| - |kept|;
      assert forall j :: 0 <= j < |kept| ==> kept[j] == all[d + j];
    }
  }

  lemma PrunedBucket(events: Buckets, shape: ShapeKey, cutoff: real, s: ShapeKey)
    ensures s != shape ==> Bucket(Pruned(events, shape, cutoff), s) == Bucket(events, s)
    ensures Bucket(Pruned(events, shape, cutoff), shape) == Prune(Bucket(events, shape), cutoff)
    ensures s in Pruned(events, shape, cutoff) ==> s in events
    ensures shape in Pruned(events, shape, cutoff) ==> Prune(Bucket(events, shape), cutoff) != []
  {
  }

  lemma PruneKeeps(events: Buckets, history: seq<Event>, limit: nat, clock: real, shape: ShapeKey, cutoff: real)
    requires Tracks(events, history, limit) && OrderedHistory(history, clock)
    ensures Tracks(Pruned(events, shape, cutoff), history, limit)
    ensures Faithful(events, history, limit, cutoff) ==> Faithful(Pruned(events, shape, cutoff), history, limit, cutoff)
    ensures |Pruned(events, shape, cutoff)| <= |events|
  {
    hide CountAfter, Times, Prune, OrderedHistory, Suffix, Enough, Pruned;
    var after := Pruned(events, shape, cutoff);
    var kept := Prune(Bucket(events, shape), cutoff);
    PruneDropsAged(Bucket(events, shape), cutoff);
    forall s | s in after ensures s in events && 0 < |after[s]| <= limit && Suffix(after[s], Times(history, s)) {
      PrunedBucket(events, shape, cutoff, s);
      assert after[s] == Bucket(after, s);
      if s == shape {
        SuffixPruned(events[s], Times(history, s), |events[s]| - |kept|);
      }
    }
    if Faithful(events, history, limit, cutoff) {
      forall s: ShapeKey ensures Enough(Bucket(after, s), Times(history, s), limit, cutoff) {
        PrunedBucket(events, shape, cutoff, s);
        assert Enough(Bucket(events, s), Times(history, s), limit, cutoff);
        if s == shape {
          TimesOrdered(history, clock, s);
          EnoughPruned(Bucket(events, s), Times(history, s), limit, cutoff, clock, |Bucket(events, s)| - |kept|);
        }
      }
    }
    SubsetSize(after.Keys, events.Keys);
    assert |after.Keys| == |after| && |events.Keys| == |events|;
  }

  lemma SuffixPruned(kept: seq<real>, all: seq<real>, n: nat)
    requires Suffix(kept, all) && n <= |kept|
    ensures Suffix(kept[n..], all)
  {
  }

  lemma OrderedLater(history: seq<Event>, clock: real, now: real)
    requires OrderedHistory(history, clock) && clock <= now
    ensures OrderedHistory(history, now)
  {
  }

  function HintsFor(t: Tuning, count: nat): Hints {
    if count >= t.skipMin then Hints(t.multiplier, true, count)
    else if count >= t.hintMin then Hints(t.multiplier, false, count)
    else Hints(1.0, false, count)
  }

  /** What the hints say of the full count, by what the two verdicts have to do with each other. */
  lemma HintsMean(t: Tuning, count: nat, full: nat)
    requires t.Coherent()
    ensures var r := HintsFor(t, count);
            && (r.multiplier == t.multiplier || r.multiplier == 1.0)
            && (NoStronger(VerdictOf(t, count), VerdictOf(t, full)) ==>
                  && (r.skip ==> full >= t.skipMin)
                  && (r.multiplier != 1.0 ==> full >= t.hintMin))
            && (VerdictOf(t, count) == VerdictOf(t, full) ==>
                  && (r.skip <==> full >= t.skipMin)
                  && r.multiplier == if full >= t.hintMin then t.multiplier else 1.0)
  {
  }

  /** Bounded buckets never over-count; faithful ones count right up to their bound. */
  lemma BucketCounts(events: Buckets, history: seq<Event>, limit: nat, clock: real, shape: ShapeKey, cutoff: real)
    requires Tracks(events, history, limit) && OrderedHistory(history, clock)
    ensures CountAfter(Bucket(events, shape), cutoff) <= CountAfter(Times(history, shape), cutoff)
    ensures Faithful(events, history, limit, cutoff) ==>
              var full := CountAfter(Times(history, shape), cutoff);
              CountAfter(Bucket(events, shape), cutoff) == if full <= limit then full else limit
  {
    hide OrderedHistory;
    if shape in events {
      SuffixCounts(events[shape], Times(history, shape), cutoff);
    } else {
      assert CountAfter([], cutoff) == 0;
    }
    if Faithful(events, history, limit, cutoff) {
      TimesOrdered(history, clock, shape);
      assert Enough(Bucket(events, shape), Times(history, shape), limit, cutoff);
      EnoughCounts(Bucket(events, shape), Times(history, shape), limit, cutoff, clock);
    }
  }

  /** A bucket full at its bound already reaches the skip threshold on its own, so capping the
      two counts before adding them changes no verdict. */
  lemma BoundedCounts(events: Buckets, history: seq<Event>, t: Tuning, clock: real, shape: ShapeKey, cutoff: real)
    requires t.Coherent() && Tracks(events, history, t.maxEvents) && OrderedHistory(history, clock)
    ensures var both := CountAfter(Bucket(events, shape), cutoff)
                        + if shape.tool != "" then CountAfter(Bucket(events, Anonymous(shape)), cutoff) else 0;
            var full := InWindow(history, shape, cutoff);
            && both <= full && NoStronger(VerdictOf(t, both), VerdictOf(t, full))
            && (Faithful(events, history, t.maxEvents, cutoff) ==>
                  both == InWindowUpTo(history, shape, cutoff, t.maxEvents) && VerdictOf(t, both) == VerdictOf(t, full))
  {
    hide CountAfter, OrderedHistory, Tracks, Faithful, Bucket, Times;
    BucketCounts(events, history, t.maxEvents, clock, shape, cutoff);
    BucketCounts(events, history, t.maxEvents, clock, Anonymous(shape), cutoff);
  }

  /** The table after a lookup of `shape`, and the count it found. */
  ghost function LookedUp(events: Buckets, shape: ShapeKey, cutoff: real): (Buckets, nat) {
    var own := Pruned(events, shape, cutoff);
    if shape.tool == "" then (own, |Prune(Bucket(events, shape), cutoff)|)
    else (Pruned(own, Anonymous(shape), cutoff),
          |Prune(Bucket(events, shape), cutoff)| + |Prune(Bucket(own, Anonymous(shape)), cutoff)|)
  }

  /** A lookup loses nothing that counts and finds the bounded counts. */
  lemma LookupSettles(events: Buckets, history: seq<Event>, t: Tuning, clock: real, shape: ShapeKey, now: real)
    requires t.Coherent() && Tracks(events, history, t.maxEvents) && OrderedHistory(history, clock) && clock <= now
    ensures var (after, count) := LookedUp(events, shape, now - t.window);
            var full := InWindow(history, shape, now - t.window);
            && Tracks(after, history, t.maxEvents) && |after| <= |events|
            && count <= full && NoStronger(VerdictOf(t, count), VerdictOf(t, full))
            && (Faithful(events, history, t.maxEvents, clock - t.window) ==>
                  && Faithful(after, history, t.maxEvents, now - t.window)
                  && count == InWindowUpTo(history, shape, now - t.window, t.maxEvents)
                  && VerdictOf(t, count) == VerdictOf(t, full))
  {
    hide Tracks, Faithful, OrderedHistory, Pruned, Prune, CountAfter, Times, NoStronger, InWindow, InWindowUpTo, VerdictOf, Bucket;
    var cutoff, limit := now - t.window, t.maxEvents;
    var own := Pruned(events, shape, cutoff);
    if Faithful(events, history, limit, clock - t.window) {
      FaithfulLater(events, history, limit, clock - t.window, cutoff);
    }
    BoundedCounts(events, history, t, clock, shape, cutoff);
    PruneKeeps(events, history, limit, clock, shape, cutoff);
    PruneKeeps(own, history, limit, clock, Anonymous(shape), cutoff);
    BucketOrdered(events, history, limit, clock, shape);
    PruneCounts(Bucket(events, shape), cutoff, clock);
    if shape.tool != "" {
      PrunedBucket(events, shape, cutoff, Anonymous(shape));
      BucketOrdered(events, history, limit, clock, Anonymous(shape));
      PruneCounts(Bucket(events, Anonymous(shape)), cutoff, clock);
    }
  }

  // ---------- The aggregator ----------

  class Aggregator {
    const tuning: Tuning
    var events: Buckets
    /** Every retrieval recorded since the last clear. */
    ghost var history: seq<Event>
    /** The last clock reading. */
    ghost var clock: real
    /** Some record found more shapes active than there is room for. */
    ghost var crowded: bool

    ghost predicate Valid()
      reads this
    {
      && tuning.Coherent() && |events| <= tuning.maxShapes
      && OrderedHistory(history, clock)
      && Tracks(events, history, tuning.maxEvents)
      && (!crowded ==> Faithful(events, history, tuning.maxEvents, clock - tuning.window))
    }

    constructor (t: Tuning, now: real)
      requires t.Coherent()
      ensures Valid() && tuning == t && history == [] && !crowded && clock == now
    {
      tuning, events, history, clock, crowded := t, map[], [], now, false;
    }

    /** Makes room for one new shape: reaps the decayed buckets and, only if that is not enough,
        drops the one whose newest event is oldest. */
    method EvictOneShape(now: real) returns (forced: bool)
      requires tuning.maxShapes >= 1 && |events| <= tuning.maxShapes
      modifies this`events
      ensures |events| < tuning.maxShapes
      ensures !forced ==> events == Undecayed(old(events), now - tuning.window)
      ensures RoomMade(old(events), events, forced, tuning, now)
      ensures Reaped(old(events), events, forced, now - tuning.window)
    {
      hide *;
      events, forced := MakeRoom(events, tuning.maxShapes, now - tuning.window);
      RoomIsMade(old(events), events, forced, tuning, now);
    }

    method RecordRetrieval(shape: ShapeKey, now: real)
      requires Valid() && clock <= now
      modifies this
      ensures Valid() && clock == now && history == old(history) + [Event(shape, now)]
      ensures crowded == (old(crowded) || |ActiveShapes(history, now - tuning.window)| > tuning.maxShapes)
    {
      hide Tracks, Faithful, OrderedHistory, RoomMade, ActiveShapes;
      ghost var before, was := events, history;
      var forced := false;
      RoomUnneeded(events, tuning, now);
      if shape !in events && |events| >= tuning.maxShapes {
        forced := EvictOneShape(now);
      }
      RoomIsHarmless(before, events, forced, history, tuning, clock, shape, now);
      RecordKeeps(events, history, tuning.maxEvents, now - tuning.window, shape, now);
      OrderedAppend(history, clock, Event(shape, now));
      BucketBound(events, history, tuning.maxEvents, shape);
      SetSize(events, shape, Append(Bucket(events, shape), now, tuning.maxEvents));
      events := events[shape := Append(Bucket(events, shape), now, tuning.maxEvents)];
      history := history + [Event(shape, now)];
      clock := now;
      crowded := crowded || |ActiveShapes(history, now - tuning.window)| > tuning.maxShapes;
    }

    /** The in-window count of one bucket, its aged head popped and an emptied bucket dropped. */
    method CountInWindow(shape: ShapeKey, cutoff: real) returns (n: nat)
      modifies this`events
      ensures n == |Prune(Bucket(old(events), shape), cutoff)|
      ensures events == Pruned(old(events), shape, cutoff)
    {
      if shape !in events {
        return 0;
      }
      var times := events[shape];
      while times != [] && times[0] <= cutoff
        invariant Prune(times, cutoff) == Prune(events[shape], cutoff)
      {
        times := times[1..];
      }
      events := if times == [] then events - {shape} else events[shape := times];
      n := |times|;
    }

    /** The hints the window supports. They never claim more than the full history would, and as
        long as no record found more shapes active than there is room for, they give the very
        verdict of the full history. */
    method GetHints(shape: ShapeKey, now: real) returns (r: Hints)
      requires Valid() && clock <= now
      modifies this
      ensures Valid() && clock == now && history == old(history) && crowded == old(crowded)
      ensures r == HintsFor(tuning, r.retrievalsInWindow)
      ensures var full := InWindow(history, shape, now - tuning.window);
              && r.retrievalsInWindow <= full
              && (r.skip ==> full >= tuning.skipMin)
              && (r.multiplier == tuning.multiplier || r.multiplier == 1.0)
              && (r.multiplier != 1.0 ==> full >= tuning.hintMin)
              && (!crowded ==>
                    && r.retrievalsInWindow == InWindowUpTo(history, shape, now - tuning.window, tuning.maxEvents)
                    && (r.skip <==> full >= tuning.skipMin)
                    && r.multiplier == if full >= tuning.hintMin then tuning.multiplier else 1.0)
    {
      hide Tracks, Faithful, OrderedHistory, Pruned, Prune, CountAfter, Times, NoStronger, InWindow, InWindowUpTo, VerdictOf, Bucket;
      LookupSettles(events, history, tuning, clock, shape, now);
      var cutoff := now - tuning.window;
      var count := CountInWindow(shape, cutoff);
      if shape.tool != "" {
        var more := CountInWindow(Anonymous(shape), cutoff);
        count := count + more;
      }
      OrderedLater(history, clock, now);
      clock := now;
      r := HintsFor(tuning, count);
      HintsMean(tuning, count, InWindow(history, shape, cutoff));
    }

    method Clear()
      requires Valid()
      modifies this
      ensures Valid() && history == [] && clock == old(clock) && !crowded && events == map[]
    {
      events := map[];
      history := [];
      crowded := false;
    }
  }
}
