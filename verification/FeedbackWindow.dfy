/** Retrieval events in a sliding window: the full history, and what a bounded record of it
    must still tell. */
module FeedbackWindow {

  datatype ShapeKey = ShapeKey(tool: string, contentType: string)
  datatype Event = Event(shape: ShapeKey, at: real)

  /** The times of one shape, oldest first. */
  function Times(history: seq<Event>, shape: ShapeKey): seq<real> {
    if history == [] then [] else
      var last := history[|history| - 1];
      Times(history[..|history| - 1], shape) + (if last.shape == shape then [last.at] else [])
  }

  lemma TimesAppend(history: seq<Event>, e: Event, shape: ShapeKey)
    ensures Times(history + [e], shape) == Times(history, shape) + (if e.shape == shape then [e.at] else [])
  {
    assert (history + [e])[..|history|] == history;
  }

  ghost predicate Ordered(times: seq<real>, now: real) {
    && (forall i, j :: 0 <= i <= j < |times| ==> times[i] <= times[j])
    && (forall i :: 0 <= i < |times| ==> times[i] <= now)
  }

  ghost predicate OrderedHistory(history: seq<Event>, now: real) {
    && (forall i, j :: 0 <= i <= j < |history| ==> history[i].at <= history[j].at)
    && (forall i :: 0 <= i < |history| ==> history[i].at <= now)
  }

  lemma {:induction false} TimesOrdered(history: seq<Event>, now: real, shape: ShapeKey)
    requires OrderedHistory(history, now)
    ensures Ordered(Times(history, shape), now)
  {
    if history != [] {
      var last := history[|history| - 1];
      TimesOrdered(history[..|history| - 1], last.at, shape);
    }
  }

  /** How many of the times fall after the cutoff. */
  function CountAfter(times: seq<real>, cutoff: real): nat {
    if times == [] then 0 else (if times[0] > cutoff then 1 else 0) + CountAfter(times[1..], cutoff)
  }

  lemma {:induction false} CountAfterAll(times: seq<real>, cutoff: real)
    ensures CountAfter(times, cutoff) <= |times|
    ensures (forall i :: 0 <= i < |times| ==> times[i] > cutoff) ==> CountAfter(times, cutoff) == |times|
    ensures (forall i :: 0 <= i < |times| ==> times[i] <= cutoff) ==> CountAfter(times, cutoff) == 0
  {
    if times != [] {
      CountAfterAll(times[1..], cutoff);
    }
  }

  lemma {:induction false} CountAfterJoin(a: seq<real>, b: seq<real>, cutoff: real)
    ensures CountAfter(a + b, cutoff) == CountAfter(a, cutoff) + CountAfter(b, cutoff)
  {
    if a == [] {
      assert a + b == b;
    } else {
      assert (a + b)[1..] == a[1..] + b;
      CountAfterJoin(a[1..], b, cutoff);
    }
  }

  // ---------- What a bounded bucket knows of its shape ----------

  ghost predicate Suffix(kept: seq<real>, all: seq<real>) {
    |kept| <= |all| && all[|all| - |kept|..] == kept
  }

  function Dropped(kept: seq<real>, all: seq<real>): seq<real>
    requires |kept| <= |all|
  {
    all[..|all| - |kept|]
  }

  /** Nothing in the window was dropped, or the bucket is full. */
  ghost predicate Enough(kept: seq<real>, all: seq<real>, limit: nat, cutoff: real) {
    && Suffix(kept, all) && |kept| <= limit
    && (|kept| == limit || forall i :: 0 <= i < |Dropped(kept, all)| ==> Dropped(kept, all)[i] <= cutoff)
  }

  lemma SuffixCounts(kept: seq<real>, all: seq<real>, cutoff: real)
    requires Suffix(kept, all)
    ensures CountAfter(all, cutoff) == CountAfter(Dropped(kept, all), cutoff) + CountAfter(kept, cutoff)
  {
    assert all == Dropped(kept, all) + kept;
    CountAfterJoin(Dropped(kept, all), kept, cutoff);
  }

  /** A bucket that knows enough counts right up to its bound. */
  lemma EnoughCounts(kept: seq<real>, all: seq<real>, limit: nat, cutoff: real, now: real)
    requires Enough(kept, all, limit, cutoff) && Ordered(all, now)
    ensures CountAfter(kept, cutoff) == if CountAfter(all, cutoff) <= limit then CountAfter(all, cutoff) else limit
  {
    SuffixCounts(kept, all, cutoff);
    CountAfterAll(kept, cutoff);
    CountAfterAll(Dropped(kept, all), cutoff);
    KeptIsNewer(kept, all, cutoff, now);
  }

  lemma KeptIsNewer(kept: seq<real>, all: seq<real>, cutoff: real, now: real)
    requires Suffix(kept, all) && Ordered(all, now)
    ensures forall i, j :: 0 <= i < |Dropped(kept, all)| && 0 <= j < |kept| ==> Dropped(kept, all)[i] <= kept[j]
    ensures (exists j :: 0 <= j < |kept| && kept[j] <= cutoff) ==>
              forall i :: 0 <= i < |Dropped(kept, all)| ==> Dropped(kept, all)[i] <= cutoff
  {
    var d := |all| - |kept|;
    assert forall j :: 0 <= j < |kept| ==> kept[j] == all[d + j];
  }

  /** Dropping an expired head, or everything once the newest is expired, loses nothing. */
  lemma EnoughPruned(kept: seq<real>, all: seq<real>, limit: nat, cutoff: real, now: real, n: nat)
    requires Enough(kept, all, limit, cutoff) && Ordered(all, now) && n <= |kept|
    requires forall i :: 0 <= i < n ==> kept[i] <= cutoff
    ensures Enough(kept[n..], all, limit, cutoff)
  {
    var d := |all| - |kept|;
    assert forall j :: 0 <= j < |kept| ==> kept[j] == all[d + j];
    if n > 0 {
      KeptIsNewer(kept, all, cutoff, now);
      assert kept[0] <= cutoff;
      forall i | 0 <= i < d + n ensures all[i] <= cutoff {
        assert i < d ==> Dropped(kept, all)[i] <= cutoff;
        assert i >= d ==> all[i] == kept[i - d];
      }
    }
  }

  /** A later cutoff asks for less. */
  lemma EnoughLater(kept: seq<real>, all: seq<real>, limit: nat, cutoff: real, later: real)
    requires Enough(kept, all, limit, cutoff) && cutoff <= later
    ensures Enough(kept, all, limit, later)
  {
  }

  /** `deque.append` on a bounded deque. */
  function Append(kept: seq<real>, t: real, limit: nat): (r: seq<real>)
    requires 0 < limit && |kept| <= limit
    ensures 0 < |r| <= limit && r[|r| - 1] == t
  {
    (if |kept| == limit then kept[1..] else kept) + [t]
  }

  lemma EnoughAppended(kept: seq<real>, all: seq<real>, limit: nat, cutoff: real, t: real)
    requires 0 < limit && |kept| <= limit && Suffix(kept, all)
    ensures Suffix(Append(kept, t, limit), all + [t])
    ensures Enough(kept, all, limit, cutoff) ==> Enough(Append(kept, t, limit), all + [t], limit, cutoff)
  {
    var after := Append(kept, t, limit);
    var d := |all| - |kept|;
    assert forall j :: 0 <= j < |kept| ==> kept[j] == all[d + j];
    if |kept| < limit {
      assert (all + [t])[|all| + 1 - |after|..] == after;
      assert Dropped(after, all + [t]) == Dropped(kept, all);
    } else {
      assert (all + [t])[|all| + 1 - |after|..] == after;
    }
  }
}
