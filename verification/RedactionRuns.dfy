/** What a budgeted redaction comes to, in every environment: its outcome, and exactly when the
    process gets its handler, its timer and its deadline back. */
module RedactionRuns {
  import opened Wrappers
  import opened AlarmMachine

  // ---------- The invariant of every state ----------

  /** The budget alarm is one-shot: running, pending or spent. The budget's handler puts the
      caller's back unless it faults. The budget never runs under the caller's handler, and where
      delivery is prompt, no alarm of it is then still to come. */
  ghost predicate Sound(env: Environment, s: State) {
    && (if s.timer == Budget then 1 else 0) + (if s.pending then 1 else 0) + (if s.alarm != NotYet then 1 else 0) <= 1
    && (s.timer.Deadline? ==> s.clock < s.timer.expiry && 0.0 <= s.timer.interval)
    && (s.alarm.Raised? && !env.moments(s.alarm.at).handlerFaults ==> s.handler == Callers)
    && (s.handler == Callers ==> s.timer != Budget)
    && (env.prompt ==> !s.alarm.Stray? && (s.handler == Callers ==> !s.pending))
  }

  /** No deadline of the caller's is running. */
  predicate Ours(s: State) {
    s.timer == Off || s.timer == Budget
  }

  lemma Crossing(env: Environment, p: Place, s: State)
    requires Sound(env, s)
    ensures var (t, raised) := Cross(env, p, s);
            && Sound(env, t) && s.clock <= t.clock
            && (raised ==>
                  && s.alarm == NotYet && s.handler == Budgets && t.alarm == Raised(p)
                  && t.handler == (if env.moments(p).handlerFaults then Budgets else Callers)
                  && !t.timer.Budget? && !t.pending)
            && (!raised ==> t.handler == s.handler && (t.alarm == s.alarm || (s.alarm == NotYet && s.handler == Callers && t.alarm == Stray(p))))
            && (!raised && env.prompt && s.timer != Budget ==> !t.pending)
            && (Ours(s) ==> Ours(t) && t.own == s.own && t.clock == s.clock + env.moments(p).elapsed)
            && (s.timer == Off ==> t.timer == Off)
            && (s.handler == Callers ==> !raised && Kept(s, t))
  {
  }

  /** The caller's handler is in place and its timer goes on undisturbed. */
  ghost predicate Kept(s: State, t: State) {
    && t.handler == Callers && s.own <= t.own
    && (t.own == s.own ==> t.timer == s.timer)
    && (s.timer == Off ==> t.timer == Off && t.own == s.own)
  }

  // ---------- Attempts ----------

  /** The alarm was raised inside the guarded block of this attempt. */
  predicate SpoiledByAlarm(alarm: Alarm, r: nat, k: nat) {
    && alarm.Raised? && alarm.at.Attempt? && alarm.at.restore == r && alarm.at.k == k
    && alarm.at.spot != Looping && alarm.at.spot != Continuing
  }

  /** Neither call of this attempt faults, nor does the alarm spoil it. */
  predicate CleanAttempt(env: Environment, alarm: Alarm, r: nat, k: nat) {
    env.calls(Disarm(r, k)) == Clean && env.calls(Swap(r, k)) == Clean && !SpoiledByAlarm(alarm, r, k)
  }

  /** This attempt gets as far as the swap, and the swap takes effect, reported or not. */
  predicate SwapLands(env: Environment, alarm: Alarm, r: nat, k: nat) {
    env.calls(Disarm(r, k)) == Clean && env.calls(Swap(r, k)) != Lost && !SpoiledByAlarm(alarm, r, k)
  }

  /** The alarm cut this restore short: it was raised outside the guarded blocks. */
  predicate CutShort(alarm: Alarm, r: nat) {
    && alarm.Raised?
    && (alarm.at == Finishing(r)
        || (alarm.at.Attempt? && alarm.at.restore == r && (alarm.at.spot == Looping || alarm.at.spot == Continuing)))
  }

  /** How many attempts a restore makes unless one of them goes through. */
  function Made(alarm: Alarm, r: nat): nat {
    if !CutShort(alarm, r) then RESTORE_ATTEMPTS
    else if alarm.at.Finishing? then 0
    else if alarm.at.spot == Looping then alarm.at.k
    else alarm.at.k + 1
  }

  lemma OneAttempt(env: Environment, r: nat, k: nat, s: State)
    requires Sound(env, s) && Ours(s) && !SpoiledByAlarm(s.alarm, r, k)
    ensures var (t, settled) := TryRestore(env, r, k, s);
            && Sound(env, t) && Ours(t) && t.own == s.own
            && (settled ==> t.handler == Callers && t.timer == Off)
            && (settled <==> CleanAttempt(env, t.alarm, r, k))
            && (t.alarm == s.alarm || (s.alarm == NotYet && (t.alarm.Stray? || SpoiledByAlarm(t.alarm, r, k))))
            && (t.handler == Callers <==>
                  || s.handler == Callers || SwapLands(env, t.alarm, r, k)
                  || (t.alarm != s.alarm && t.alarm.Raised? && !env.moments(t.alarm.at).handlerFaults))
  {
    hide Cross;
    var (s1, raised1) := Cross(env, Attempt(r, k, Disarming), s);
    Crossing(env, Attempt(r, k, Disarming), s);
    if !raised1 {
      var s2 := Disarmed(env, r, k, s1);
      if env.calls(Disarm(r, k)).Clean? {
        var (s3, raised3) := Cross(env, Attempt(r, k, Swapping), s2);
        Crossing(env, Attempt(r, k, Swapping), s2);
        if !raised3 {
          var s4 := Swapped(env, r, k, s3);
          Crossing(env, Attempt(r, k, Settling), s4);
        }
      }
    }
  }

  /** The alarm has no place in this restore from attempt `k` on. */
  ghost predicate Elsewhere(alarm: Alarm, r: nat, k: nat) {
    !CutShort(alarm, r) && forall j: nat :: k <= j ==> !SpoiledByAlarm(alarm, r, j)
  }

  /** Some attempt from `k` on is clean. */
  ghost predicate SomeClean(env: Environment, alarm: Alarm, r: nat, k: nat) {
    exists j: nat :: k <= j < RESTORE_ATTEMPTS && CleanAttempt(env, alarm, r, j)
  }

  /** Some attempt made from `k` on swaps the handler back. */
  ghost predicate SomeSwap(env: Environment, alarm: Alarm, r: nat, k: nat) {
    exists j: nat :: k <= j < Made(alarm, r) && SwapLands(env, alarm, r, j)
  }

  lemma SomeNext(env: Environment, alarm: Alarm, r: nat, k: nat)
    requires k < RESTORE_ATTEMPTS
    ensures SomeClean(env, alarm, r, k) <==> CleanAttempt(env, alarm, r, k) || SomeClean(env, alarm, r, k + 1)
    ensures SomeSwap(env, alarm, r, k) <==> (k < Made(alarm, r) && SwapLands(env, alarm, r, k)) || SomeSwap(env, alarm, r, k + 1)
  {
    hide CleanAttempt, SwapLands, Made;
  }

  lemma NoneNext(env: Environment, alarm: Alarm, r: nat, k: nat)
    ensures k >= RESTORE_ATTEMPTS ==> !SomeClean(env, alarm, r, k)
    ensures k >= Made(alarm, r) ==> !SomeSwap(env, alarm, r, k)
  {
  }

  /** An alarm later on spoils no earlier attempt. */
  lemma LaterAlarm(env: Environment, before: Alarm, after: Alarm, r: nat, k: nat)
    requires AlarmFrom(before, after, r, k + 1) || (before == NotYet && after == Raised(Attempt(r, k, Continuing)))
    ensures CleanAttempt(env, after, r, k) == CleanAttempt(env, before, r, k)
    ensures SwapLands(env, after, r, k) == SwapLands(env, before, r, k)
  {
  }

  lemma CleanSwaps(env: Environment, alarm: Alarm, r: nat, k: nat)
    requires CleanAttempt(env, alarm, r, k)
    ensures SwapLands(env, alarm, r, k)
  {
  }

  /** What the alarm of a state that went through attempts from `k` on may be. */
  predicate AlarmFrom(before: Alarm, after: Alarm, r: nat, k: nat) {
    || after == before
    || (before == NotYet
        && (after.Stray?
            || (after.Raised? && after.at.Attempt? && after.at.restore == r && k <= after.at.k < RESTORE_ATTEMPTS)))
  }

  /** The loop goes through exactly if it is not cut short and some attempt is clean. */
  lemma {:induction false} AttemptsExactly(env: Environment, r: nat, k: nat, s: State)
    requires Sound(env, s) && Ours(s) && k <= RESTORE_ATTEMPTS && Elsewhere(s.alarm, r, k)
    ensures var (t, end) := Attempts(env, r, k, s);
            && Sound(env, t) && Ours(t) && t.own == s.own && AlarmFrom(s.alarm, t.alarm, r, k)
            && (end.Settled? ==> t.handler == Callers && t.timer == Off)
            && (end.Escaped? <==> CutShort(t.alarm, r))
            && (end.Settled? <==> !CutShort(t.alarm, r) && SomeClean(env, t.alarm, r, k))
            && (t.handler == Callers <==>
                  || s.handler == Callers || SomeSwap(env, t.alarm, r, k)
                  || (t.alarm != s.alarm && t.alarm.Raised? && !env.moments(t.alarm.at).handlerFaults))
    decreases RESTORE_ATTEMPTS - k
  {
    hide Cross, TryRestore, CleanAttempt, SwapLands, Sound, SomeClean, SomeSwap;
    var (t, end) := Attempts(env, r, k, s);
    NoneNext(env, t.alarm, r, k);
    if k < RESTORE_ATTEMPTS {
      SomeNext(env, t.alarm, r, k);
      NoneNext(env, t.alarm, r, k + 1);
      var (s1, raised1) := Cross(env, Attempt(r, k, Looping), s);
      Crossing(env, Attempt(r, k, Looping), s);
      if raised1 {
      } else {
        var (s2, settled) := TryRestore(env, r, k, s1);
        OneAttempt(env, r, k, s1);
        if settled {
          CleanSwaps(env, s2.alarm, r, k);
        } else {
          var (s3, raised3) := Cross(env, Attempt(r, k, Continuing), s2);
          Crossing(env, Attempt(r, k, Continuing), s2);
          if !raised3 {
            AttemptsExactly(env, r, k + 1, s3);
            LaterAlarm(env, s3.alarm, t.alarm, r, k);
          }
          LaterAlarm(env, s2.alarm, s3.alarm, r, k);
        }
      }
    }
  }

  // ---------- A restore ----------

  /** An alarm elsewhere leaves a restore as no alarm does. */
  lemma ElsewhereAlike(env: Environment, a: Alarm, b: Alarm, r: nat)
    requires a == b || (Elsewhere(a, r, 0) && Elsewhere(b, r, 0))
    ensures CutShort(a, r) == CutShort(b, r)
    ensures SomeClean(env, a, r, 0) == SomeClean(env, b, r, 0) && SomeSwap(env, a, r, 0) == SomeSwap(env, b, r, 0)
  {
    forall k: nat ensures CleanAttempt(env, a, r, k) == CleanAttempt(env, b, r, k) && SwapLands(env, a, r, k) == SwapLands(env, b, r, k) {
    }
  }

  /** What a restore that went through leaves of the timer: off if the caller had no deadline or
      the call that re-arms it was lost, else the deadline for what is left of it, never zero. */
  ghost predicate TimerOwed(env: Environment, r: nat, saved: Saved, t: State) {
    if saved.remaining == 0.0 || env.calls(Rearm(r)) == Lost then t.timer == Off
    else
      var read := t.clock - env.moments(Setting(r)).elapsed;
      t.timer == Deadline(t.clock + Max(saved.remaining - (read - saved.started), MIN_RESTORED_TIMER), saved.interval)
  }

  lemma Rearming(env: Environment, r: nat, saved: Saved, s: State)
    requires Sound(env, s) && s.handler == Callers && s.timer == Off && 0.0 <= saved.interval
    ensures var t := Rearmed(env, r, saved, s);
            && Sound(env, t) && t.handler == Callers && t.own == s.own && s.clock <= t.clock && TimerOwed(env, r, saved, t)
            && (t.alarm == s.alarm || (s.alarm == NotYet && t.alarm.Stray?))
  {
    hide Cross;
    var s1 := Cross(env, Computing(r), s).0;
    Crossing(env, Computing(r), s);
    Crossing(env, Setting(r), s1);
  }

  /** What the alarm of a state that went through this restore may be. */
  predicate AlarmWithin(before: Alarm, after: Alarm, r: nat) {
    AlarmFrom(before, after, r, 0) || (before == NotYet && after == Raised(Finishing(r)))
  }

  /** A restore goes through exactly if it is not cut short and some attempt is clean; then it
      leaves the caller's handler and the timer it owes. */
  lemma RestoreExactly(env: Environment, r: nat, saved: Saved, s: State)
    requires Sound(env, s) && Ours(s) && 0.0 <= saved.interval && Elsewhere(s.alarm, r, 0)
    ensures var (t, end) := Restore(env, r, saved, s);
            && Sound(env, t) && t.own == s.own && AlarmWithin(s.alarm, t.alarm, r)
            && (end.Settled? ==> t.handler == Callers && TimerOwed(env, r, saved, t))
            && (!end.Settled? ==> Ours(t))
            && (end.Escaped? <==> CutShort(t.alarm, r))
            && (end.Settled? <==> !CutShort(t.alarm, r) && SomeClean(env, t.alarm, r, 0))
            && (t.handler == Callers <==>
                  || s.handler == Callers || SomeSwap(env, t.alarm, r, 0)
                  || (t.alarm != s.alarm && t.alarm.Raised? && !env.moments(t.alarm.at).handlerFaults))
  {
    hide Cross, Attempts, Rearmed, Sound, SomeClean, SomeSwap, TimerOwed;
    var (s1, raised) := Cross(env, Finishing(r), s);
    Crossing(env, Finishing(r), s);
    var (t, end) := Restore(env, r, saved, s);
    NoneNext(env, t.alarm, r, 0);
    if !raised {
      var (s2, _) := Attempts(env, r, 0, s1);
      AttemptsExactly(env, r, 0, s1);
      if end.Settled? {
        Rearming(env, r, saved, s2);
        ElsewhereAlike(env, s2.alarm, t.alarm, r);
        CleanMeansSwap(env, t.alarm, r);
      }
    }
  }

  lemma CleanMeansSwap(env: Environment, alarm: Alarm, r: nat)
    ensures !CutShort(alarm, r) && SomeClean(env, alarm, r, 0) ==> SomeSwap(env, alarm, r, 0)
  {
    if !CutShort(alarm, r) && SomeClean(env, alarm, r, 0) {
      var k: nat :| k < RESTORE_ATTEMPTS && CleanAttempt(env, alarm, r, k);
      assert SwapLands(env, alarm, r, k);
    }
  }

  // ---------- Arming ----------

  /** The process before the call: the caller's own handler, and its own timer or none. */
  ghost predicate Pristine(s: State) {
    && s.handler == Callers && s.timer != Budget && !s.pending && s.alarm == NotYet
    && (s.timer.Deadline? ==> s.clock < s.timer.expiry && 0.0 <= s.timer.interval)
  }

  /** The alarm was raised before the guarded block was entered. */
  predicate Early(alarm: Alarm) {
    alarm == Raised(Starting) || alarm == Raised(Entering)
  }

  /** The caller's deadline comes due before the budget's handler is in, and reaches the caller's. */
  predicate DueAtOnce(env: Environment, s: State) {
    s.timer.Deadline? && s.timer.expiry <= s.clock + env.moments(Installing).elapsed
  }

  /** The budget replaces the caller's timer as it stands: the deadline it had, or, if that came
      due before the budget's handler was in, what its own interval made of it. */
  lemma ArmingExactly(env: Environment, s: State)
    requires Pristine(s)
    ensures var a := Arm(env, s);
            && Sound(env, a.s) && Ours(a.s)
            && (a.raised <==> Early(a.s.alarm)) && (!a.raised ==> a.s.alarm == NotYet && a.s.handler == Budgets)
            && (a.raised ==> (a.s.handler == Callers <==> !env.moments(a.s.alarm.at).handlerFaults) && a.s.timer == Off)
            && (a.s.own == s.own <==> !DueAtOnce(env, s)) && (a.s.own == s.own ==> a.held == s.timer)
            && (a.saved.remaining == 0.0 <==> a.held == Off) && a.held != Budget
            && 0.0 <= a.saved.remaining && 0.0 <= a.saved.interval
            && (a.held.Deadline? ==>
                  && a.saved.interval == a.held.interval
                  && a.saved.remaining + a.saved.started == a.held.expiry + env.moments(Starting).elapsed)
            && a.saved.started <= a.s.clock
  {
    hide Cross;
    var before := Cross(env, Installing, s).0;
    FirstCrossing(env, s);
    InstalledCrossing(env, before);
    var installed := Cross(env, Arming, before.(handler := Budgets)).0;
    Crossing(env, Starting, installed.(timer := Budget));
    var running := Cross(env, Starting, installed.(timer := Budget)).0;
    Crossing(env, Entering, running);
  }

  lemma FirstCrossing(env: Environment, s: State)
    requires Pristine(s)
    ensures var t := Cross(env, Installing, s).0;
            && Pristine(t) && (t.own == s.own ==> t.timer == s.timer)
            && (t.own == s.own <==> !DueAtOnce(env, s))
  {
  }

  lemma InstalledCrossing(env: Environment, s: State)
    requires Pristine(s)
    ensures var t := Cross(env, Arming, s.(handler := Budgets)).0;
            && t.handler == Budgets && t.timer == s.timer && !t.pending && t.alarm == NotYet && t.own == s.own
            && s.clock <= t.clock && (t.timer.Deadline? ==> t.clock < t.timer.expiry)
  {
  }

  // ---------- Whole runs ----------

  /** The restore that has the last word: the second one, if the alarm cut the first one short or
      came right after it. */
  function LastRestore(alarm: Alarm): nat {
    if CutShort(alarm, 1) || alarm == Raised(Returning) then 2 else 1
  }

  /** The restore that has the last word goes through: one of its eight attempts is clean. */
  ghost predicate GoesThrough(env: Environment, alarm: Alarm) {
    !Early(alarm) && SomeClean(env, alarm, LastRestore(alarm), 0)
  }

  /** Somebody puts the caller's handler back: the budget's handler itself, or a swap that lands. */
  ghost predicate HandlerBack(env: Environment, alarm: Alarm) {
    || (alarm.Raised? && !env.moments(alarm.at).handlerFaults)
    || (!Early(alarm)
        && (SomeSwap(env, alarm, 1, 0) || (LastRestore(alarm) == 2 && SomeSwap(env, alarm, 2, 0))))
  }

  /** The alarm interrupted the budgeted call anywhere but inside a guarded restoring block. */
  predicate Overran(alarm: Alarm) {
    alarm.Raised? && !(alarm.at.Attempt? && alarm.at.spot != Looping && alarm.at.spot != Continuing)
  }

  /** The timer the last restore owed was set, and has been the caller's since. */
  ghost predicate TimerSince(env: Environment, saved: Saved, own: nat, t: State) {
    exists u: State :: u.own == own && u.clock <= t.clock && TimerOwed(env, LastRestore(t.alarm), saved, u) && Kept(u, t)
  }

  ghost predicate Ends(env: Environment, a: Armed, t: State) {
    && Sound(env, t)
    && (t.handler == Callers <==> HandlerBack(env, t.alarm))
    && (GoesThrough(env, t.alarm) ==> TimerSince(env, a.saved, a.s.own, t))
    && (!GoesThrough(env, t.alarm) ==> Ours(t) && t.own == a.s.own)
  }

  lemma Calls(env: Environment, redacted: Redacted, s: State)
    requires Sound(env, s) && Ours(s) && s.alarm == NotYet && s.handler == Budgets
    ensures var (t, c) := Called(env, redacted, s);
            && Sound(env, t) && Ours(t) && t.own == s.own
            && (c == Raises(BudgetExceeded) ==> t.alarm == Raised(Calling) || t.alarm == Raised(Running))
            && (c != Raises(BudgetExceeded) ==> t.alarm == NotYet && t.handler == Budgets && c == Alone(redacted))
            && (t.handler == Callers <==> t.alarm.Raised? && !env.moments(t.alarm.at).handlerFaults)
  {
    hide Cross;
    Crossing(env, Calling, s);
    Crossing(env, Running, Cross(env, Calling, s).0);
  }

  lemma KeptOn(env: Environment, saved: Saved, own: nat, p: Place, s: State)
    requires Sound(env, s) && s.handler == Callers && TimerSince(env, saved, own, s)
    ensures TimerSince(env, saved, own, Cross(env, p, s).0)
  {
    hide Cross, TimerOwed;
    Crossing(env, p, s);
    var t := Cross(env, p, s).0;
    var u: State :| u.own == own && u.clock <= s.clock && TimerOwed(env, LastRestore(s.alarm), saved, u) && Kept(u, s);
    assert Kept(u, t);
  }

  /** After the first restore: it went through, was cut short, or spent its attempts. */
  lemma FirstRestore(env: Environment, a: Armed, s: State)
    requires Sound(env, s) && Ours(s) && 0.0 <= a.saved.interval && s.own == a.s.own
    requires s.alarm == NotYet || s.alarm == Raised(Calling) || s.alarm == Raised(Running)
    requires s.handler == Callers <==> s.alarm.Raised? && !env.moments(s.alarm.at).handlerFaults
    ensures var (t, end) := Restore(env, 1, a.saved, s);
            && (end.Escaped? <==> CutShort(t.alarm, 1))
            && (end.Settled? <==> !CutShort(t.alarm, 1) && SomeClean(env, t.alarm, 1, 0))
            && AlarmWithin(s.alarm, t.alarm, 1)
            && Sound(env, t)
            && (!end.Settled? ==> Ours(t) && t.own == a.s.own)
            && (t.handler == Callers <==> (t.alarm.Raised? && !env.moments(t.alarm.at).handlerFaults) || SomeSwap(env, t.alarm, 1, 0))
            && (end.Settled? ==> t.handler == Callers && TimerSince(env, a.saved, a.s.own, t))
  {
    hide Restore, Sound, TimerOwed, SomeClean, SomeSwap;
    RestoreExactly(env, 1, a.saved, s);
    var (t, end) := Restore(env, 1, a.saved, s);
    if end.Settled? {
      assert Kept(t, t);
    }
  }

  /** The alarm has been raised and the second restore runs undisturbed. */
  lemma SecondRestore(env: Environment, a: Armed, s: State)
    requires Sound(env, s) && Ours(s) && 0.0 <= a.saved.interval && s.own == a.s.own
    requires CutShort(s.alarm, 1) || s.alarm == Raised(Returning)
    requires s.handler == Callers <==> !env.moments(s.alarm.at).handlerFaults || SomeSwap(env, s.alarm, 1, 0)
    ensures var (t, end) := Restore(env, 2, a.saved, s);
            !end.Escaped? && t.alarm == s.alarm && Ends(env, a, t)
  {
    hide Restore, Sound, TimerOwed, SomeClean, SomeSwap;
    RestoreExactly(env, 2, a.saved, s);
    var (t, end) := Restore(env, 2, a.saved, s);
    if end.Settled? {
      assert Kept(t, t);
    }
  }

  /** A place after the first restore changes nothing of how things end, unless the alarm brings
      on the second one. */
  lemma OneMorePlace(env: Environment, a: Armed, p: Place, s: State)
    requires Ends(env, a, s) && !Early(s.alarm)
    requires p == Returning || p == Leaving || p == Returned
    ensures var (t, raised) := Cross(env, p, s);
            && (raised ==> s.alarm == NotYet && t.alarm == Raised(p) && Sound(env, t) && Ours(t) && t.own == a.s.own
                           && (t.handler == Callers <==> !env.moments(p).handlerFaults)
                           && !SomeSwap(env, t.alarm, 1, 0))
            && (!raised ==> (t.alarm == s.alarm || (s.alarm == NotYet && t.alarm.Stray?)))
            && (!raised || p != Returning ==> Ends(env, a, t) && LastRestore(t.alarm) == LastRestore(s.alarm))
  {
    hide Cross, Sound, TimerOwed, SomeClean, SomeSwap, TimerSince, Kept;
    var (t, raised) := Cross(env, p, s);
    Crossing(env, p, s);
    ElsewhereAlike(env, s.alarm, t.alarm, 1);
    if GoesThrough(env, s.alarm) {
      ThroughMeansBack(env, s);
      KeptOn(env, a.saved, a.s.own, p, s);
    }
  }

  lemma ThroughMeansBack(env: Environment, s: State)
    requires GoesThrough(env, s.alarm)
    ensures HandlerBack(env, s.alarm)
  {
    hide SomeClean, SomeSwap;
    CleanMeansSwap(env, s.alarm, LastRestore(s.alarm));
  }

  /** How a watched call ends, in terms of where the alarm was raised. */
  predicate WatchedOutcome(alarm: Alarm, redacted: Redacted, c: Completion) {
    if Early(alarm) || alarm == Raised(Leaving) then c == Raises(BudgetExceeded)
    else if Overran(alarm) then c == Returns(None)
    else c == Alone(redacted)
  }

  lemma WatchedExactly(env: Environment, redacted: Redacted, s: State)
    requires Pristine(s)
    ensures var (t, c) := Watched(env, redacted, s);
            && Ends(env, Arm(env, s), t) && WatchedOutcome(t.alarm, redacted, c)
  {
    hide Arm, Cross, Called, Restore, Sound, SomeClean, SomeSwap, TimerSince;
    var a := Arm(env, s);
    ArmingExactly(env, s);
    if !a.raised {
      var (s1, inner) := Called(env, redacted, a.s);
      Calls(env, redacted, a.s);
      var (s2, end) := Restore(env, 1, a.saved, s1);
      FirstRestore(env, a, s1);
      if end.Escaped? {
        SecondRestore(env, a, s2);
      } else {
        var (s3, cut) := Cross(env, Returning, s2);
        OneMorePlace(env, a, Returning, s2);
        if cut {
          SecondRestore(env, a, s3);
        } else if !(inner.Raises? && inner.exc != BudgetExceeded) {
          OneMorePlace(env, a, Leaving, s3);
        }
      }
    }
  }

  lemma EndsExactly(env: Environment, redacted: Redacted, s: State)
    requires Pristine(s)
    ensures var (t, c) := Budgeted(env, redacted, true, s);
            && Ends(env, Arm(env, s), t)
            && c == if Overran(t.alarm) then Returns(None) else Alone(redacted)
  {
    hide Arm, Cross, Watched, Ends;
    var (t, c) := Watched(env, redacted, s);
    WatchedExactly(env, redacted, s);
    if c != Raises(BudgetExceeded) {
      OneMorePlace(env, Arm(env, s), Returned, t);
    }
  }

  // ---------- The results ----------

  /** The budget's exception never escapes. The call ends in `None` exactly when the alarm
      interrupted it outside a guarded restoring block, wherever that was and whatever faulted,
      and otherwise in the redactor's own value or exception. */
  lemma OutcomeExactly(env: Environment, redacted: Redacted, s: State)
    requires Pristine(s)
    ensures var (t, c) := Budgeted(env, redacted, true, s);
            && (c == Returns(None) <==> Overran(t.alarm))
            && (!Overran(t.alarm) ==> match redacted
                                      case Redacts(out) => c == Returns(Some(out))
                                      case Fails(code) => c == Raises(RedactorError(code)))
    ensures var (t, c) := Budgeted(env, redacted, false, s);
            t == s && match redacted
                      case Redacts(out) => c == Returns(Some(out))
                      case Fails(code) => c == Raises(RedactorError(code))
  {
    EndsExactly(env, redacted, s);
  }

  /** The deadline `held` of the caller's, in place again or come due since under its own handler:
      late by no more than passed between reading and setting the clock, and if that is over, due
      at once. It is never early. */
  ghost predicate DeadlineBack(env: Environment, a: Armed, t: State)
    requires a.held.Deadline?
  {
    var kept := a.held.expiry + env.moments(Starting).elapsed + env.moments(Setting(LastRestore(t.alarm))).elapsed;
    && t.handler == Callers
    && (t.own == a.s.own ==>
          && t.timer.Deadline? && t.timer.interval == a.held.interval && a.held.expiry <= t.timer.expiry
          && (t.timer.expiry == kept || kept < t.timer.expiry <= t.clock + 0.000001))
  }

  /** The caller has its handler again, and its timer: off, or the deadline it had. */
  ghost predicate HandedBack(env: Environment, a: Armed, t: State) {
    t.handler == Callers && if a.held.Deadline? then DeadlineBack(env, a, t) else t.timer == Off
  }

  lemma TimerIsBack(env: Environment, a: Armed, t: State)
    requires a.held.Deadline? && 0.0 < a.saved.remaining && a.saved.interval == a.held.interval
    requires a.saved.remaining + a.saved.started == a.held.expiry + env.moments(Starting).elapsed
    requires TimerSince(env, a.saved, a.s.own, t)
    ensures DeadlineBack(env, a, t) <==> env.calls(Rearm(LastRestore(t.alarm))) != Lost
  {
    var last := LastRestore(t.alarm);
    var u: State :| u.own == a.s.own && u.clock <= t.clock && TimerOwed(env, last, a.saved, u) && Kept(u, t);
  }

  lemma TimerIsOff(env: Environment, a: Armed, t: State)
    requires a.saved.remaining == 0.0 && TimerSince(env, a.saved, a.s.own, t)
    ensures t.timer == Off && t.own == a.s.own
  {
  }

  /** Exactly when everything is handed back. The handler alone: when the budget's handler put it
      back before raising, or a swap landed. A deadline of the caller's: when the restore that has
      the last word had a clean attempt among its eight and the call that re-arms was not lost. */
  lemma HandBackExactly(env: Environment, redacted: Redacted, s: State)
    requires Pristine(s)
    ensures var (a, t) := (Arm(env, s), Budgeted(env, redacted, true, s).0);
            && (t.handler == Callers <==> HandlerBack(env, t.alarm))
            && (HandedBack(env, a, t) <==>
                  if a.held.Deadline? then GoesThrough(env, t.alarm) && env.calls(Rearm(LastRestore(t.alarm))) != Lost
                  else HandlerBack(env, t.alarm))
            && (!DueAtOnce(env, s) ==> a.held == s.timer)
  {
    hide Arm, Budgeted, GoesThrough, HandlerBack, TimerSince, DeadlineBack;
    var (a, t) := (Arm(env, s), Budgeted(env, redacted, true, s).0);
    EndsExactly(env, redacted, s);
    ArmingExactly(env, s);
    if GoesThrough(env, t.alarm) {
      ThroughMeansBack(env, t);
      if a.held.Deadline? {
        TimerIsBack(env, a, t);
      } else {
        TimerIsOff(env, a, t);
      }
    } else if a.held.Deadline? {
      NotBack(env, a, t);
    }
  }

  lemma NotBack(env: Environment, a: Armed, t: State)
    requires a.held.Deadline? && Ours(t) && t.own == a.s.own
    ensures !DeadlineBack(env, a, t)
  {
  }

  /** Where delivery is prompt, the caller's handler never meets the budget's alarm, nor is left
      waiting for it, even when a restore spent its attempts. */
  lemma NoStrayAlarm(env: Environment, redacted: Redacted, s: State)
    requires Pristine(s) && env.prompt
    ensures var t := Budgeted(env, redacted, true, s).0;
            !t.alarm.Stray? && (t.handler == Callers ==> !t.pending && t.timer != Budget)
  {
    EndsExactly(env, redacted, s);
  }

  // ---------- Within the budget ----------

  ghost predicate InTime(env: Environment) {
    forall p :: !env.moments(p).fires
  }

  predicate Quiet(s: State) {
    s.alarm == NotYet && !s.pending
  }

  lemma QuietCross(env: Environment, p: Place, s: State)
    requires InTime(env) && Quiet(s)
    ensures Quiet(Cross(env, p, s).0) && !Cross(env, p, s).1
  {
  }

  lemma {:induction false} QuietAttempts(env: Environment, r: nat, k: nat, s: State)
    requires InTime(env) && Quiet(s) && k <= RESTORE_ATTEMPTS
    ensures Quiet(Attempts(env, r, k, s).0) && !Attempts(env, r, k, s).1.Escaped?
    decreases RESTORE_ATTEMPTS - k
  {
    hide Cross, InTime;
    if k < RESTORE_ATTEMPTS {
      var s1 := Cross(env, Attempt(r, k, Looping), s).0;
      QuietCross(env, Attempt(r, k, Looping), s);
      var s2 := Cross(env, Attempt(r, k, Disarming), s1).0;
      QuietCross(env, Attempt(r, k, Disarming), s1);
      var s3 := Cross(env, Attempt(r, k, Swapping), Disarmed(env, r, k, s2)).0;
      QuietCross(env, Attempt(r, k, Swapping), Disarmed(env, r, k, s2));
      QuietCross(env, Attempt(r, k, Settling), Swapped(env, r, k, s3));
      var (s4, settled) := TryRestore(env, r, k, s1);
      if !settled {
        QuietCross(env, Attempt(r, k, Continuing), s4);
        QuietAttempts(env, r, k + 1, Cross(env, Attempt(r, k, Continuing), s4).0);
      }
    }
  }

  lemma QuietRestore(env: Environment, r: nat, saved: Saved, s: State)
    requires InTime(env) && Quiet(s)
    ensures Quiet(Restore(env, r, saved, s).0) && !Restore(env, r, saved, s).1.Escaped?
  {
    hide Cross, InTime, Attempts;
    var s1 := Cross(env, Finishing(r), s).0;
    QuietCross(env, Finishing(r), s);
    QuietAttempts(env, r, 0, s1);
    var s2 := Attempts(env, r, 0, s1).0;
    QuietCross(env, Computing(r), s2);
    QuietCross(env, Setting(r), Cross(env, Computing(r), s2).0);
  }

  lemma QuietArm(env: Environment, s: State)
    requires InTime(env) && Quiet(s)
    ensures Quiet(Arm(env, s).s) && !Arm(env, s).raised
  {
    hide Cross, InTime;
    var before := Cross(env, Installing, s).0;
    QuietCross(env, Installing, s);
    QuietCross(env, Arming, before.(handler := Budgets));
    var armed := Cross(env, Arming, before.(handler := Budgets)).0.(timer := Budget);
    QuietCross(env, Starting, armed);
    QuietCross(env, Entering, Cross(env, Starting, armed).0);
  }

  lemma QuietRun(env: Environment, redacted: Redacted, s: State)
    requires InTime(env) && Quiet(s)
    ensures Budgeted(env, redacted, true, s).0.alarm == NotYet
  {
    hide Cross, InTime, Arm, Restore;
    var a := Arm(env, s);
    QuietArm(env, s);
    QuietCross(env, Calling, a.s);
    QuietCross(env, Running, Cross(env, Calling, a.s).0);
    var s1 := Called(env, redacted, a.s).0;
    QuietRestore(env, 1, a.saved, s1);
    var s2 := Restore(env, 1, a.saved, s1).0;
    QuietCross(env, Returning, s2);
    var s3 := Cross(env, Returning, s2).0;
    QuietCross(env, Leaving, s3);
    QuietCross(env, Returned, s3);
    QuietCross(env, Returned, Cross(env, Leaving, s3).0);
  }

  /** A redaction that ends in time gives the redactor's own outcome, and hands everything back
      exactly when one of eight attempts faults in neither of its two calls and the deadline, if
      there was one, is not lost on re-arming. */
  lemma InTimeExactly(env: Environment, redacted: Redacted, s: State)
    requires Pristine(s) && InTime(env)
    ensures var (t, c) := Budgeted(env, redacted, true, s);
            && (match redacted
                case Redacts(out) => c == Returns(Some(out))
                case Fails(code) => c == Raises(RedactorError(code)))
            && (Arm(env, s).held.Deadline? ==>
                  (HandedBack(env, Arm(env, s), t) <==>
                     && (exists k: nat :: k < RESTORE_ATTEMPTS && env.calls(Disarm(1, k)) == Clean && env.calls(Swap(1, k)) == Clean)
                     && env.calls(Rearm(1)) != Lost))
            && (Arm(env, s).held == Off ==>
                  (HandedBack(env, Arm(env, s), t) <==>
                     exists k: nat :: k < RESTORE_ATTEMPTS && env.calls(Disarm(1, k)) == Clean && env.calls(Swap(1, k)) != Lost))
  {
    hide Arm, Budgeted, HandedBack, InTime;
    QuietRun(env, redacted, s);
    OutcomeExactly(env, redacted, s);
    HandBackExactly(env, redacted, s);
    CleanInTime(env);
  }

  lemma CleanInTime(env: Environment)
    ensures GoesThrough(env, NotYet) <==>
              exists k: nat :: k < RESTORE_ATTEMPTS && env.calls(Disarm(1, k)) == Clean && env.calls(Swap(1, k)) == Clean
    ensures HandlerBack(env, NotYet) <==>
              exists k: nat :: k < RESTORE_ATTEMPTS && env.calls(Disarm(1, k)) == Clean && env.calls(Swap(1, k)) != Lost
  {
    forall k: nat
      ensures CleanAttempt(env, NotYet, 1, k) <==> env.calls(Disarm(1, k)) == Clean && env.calls(Swap(1, k)) == Clean
      ensures SwapLands(env, NotYet, 1, k) <==> env.calls(Disarm(1, k)) == Clean && env.calls(Swap(1, k)) != Lost
    {
    }
  }

  // ---------- What the attempts are for ----------

  /** How many of the first `n` attempts of a restore are spoiled. */
  function Spoiled(env: Environment, alarm: Alarm, r: nat, n: nat): nat {
    if n == 0 then 0
    else Spoiled(env, alarm, r, n - 1) + if CleanAttempt(env, alarm, r, n - 1) then 0 else 1
  }

  lemma {:induction false} SpoiledCount(env: Environment, alarm: Alarm, r: nat, n: nat)
    ensures Spoiled(env, alarm, r, n) <= n
    ensures Spoiled(env, alarm, r, n) < n <==> exists k: nat :: k < n && CleanAttempt(env, alarm, r, k)
  {
    hide CleanAttempt;
    if n > 0 {
      SpoiledCount(env, alarm, r, n - 1);
    }
  }

  /** Once the redactor call was reached, everything is handed back whenever fewer than eight
      attempts of the restore that has the last word are spoiled and the re-arming is not lost. */
  lemma FewerThanEightSpoiled(env: Environment, redacted: Redacted, s: State)
    requires Pristine(s)
    ensures var (a, t) := (Arm(env, s), Budgeted(env, redacted, true, s).0);
            !Early(t.alarm) && Spoiled(env, t.alarm, LastRestore(t.alarm), 8) < 8
            && (a.held.Deadline? ==> env.calls(Rearm(LastRestore(t.alarm))) != Lost) ==>
              HandedBack(env, a, t)
  {
    hide Arm, Budgeted, HandedBack, HandlerBack, CleanAttempt, LastRestore;
    var t := Budgeted(env, redacted, true, s).0;
    HandBackExactly(env, redacted, s);
    SpoiledCount(env, t.alarm, LastRestore(t.alarm), 8);
    if GoesThrough(env, t.alarm) {
      ThroughMeansBack(env, t);
    }
  }

  // ---------- Runs that do, and do not, hand everything back ----------

  /** A caller with its own handler and a deadline an hour ahead. */
  const WITH_DEADLINE := State(Callers, Deadline(3600.0, 0.0), false, 0.0, NotYet, 0)

  /** The budget never expires, and the first eight swaps fault and are lost. */
  const SWAPS_LOST :=
    Environment(true, (p: Place) => Moment(0.0, false, false, false), (c: Site) => if c.Swap? && c.k < 8 then Lost else Clean)

  /** Nothing faults, but the budget expires as soon as it runs. */
  const AT_ONCE := Environment(true, (p: Place) => Moment(0.0, p == Starting, p == Starting, false), (c: Site) => Clean)

  /** Eight spoiled attempts: in time and with the redactor's own outcome, the budget's handler
      stays in and the deadline is gone. */
  lemma EightSpoiledAttempts(redacted: Redacted)
    ensures Pristine(WITH_DEADLINE) && Arm(SWAPS_LOST, WITH_DEADLINE).held == WITH_DEADLINE.timer
    ensures var (t, c) := Budgeted(SWAPS_LOST, redacted, true, WITH_DEADLINE);
            && c == Alone(redacted) && t.handler == Budgets && t.timer != WITH_DEADLINE.timer
            && !HandedBack(SWAPS_LOST, Arm(SWAPS_LOST, WITH_DEADLINE), t)
  {
    hide Arm, Budgeted, InTime, Ends;
    NeverFires();
    InTimeExactly(SWAPS_LOST, redacted, WITH_DEADLINE);
    HandBackExactly(SWAPS_LOST, redacted, WITH_DEADLINE);
    QuietRun(SWAPS_LOST, redacted, WITH_DEADLINE);
    CleanInTime(SWAPS_LOST);
    EndsExactly(SWAPS_LOST, redacted, WITH_DEADLINE);
    EndsOurs(SWAPS_LOST, Arm(SWAPS_LOST, WITH_DEADLINE), Budgeted(SWAPS_LOST, redacted, true, WITH_DEADLINE).0);
  }

  lemma NeverFires()
    ensures InTime(SWAPS_LOST)
  {
  }

  lemma EndsOurs(env: Environment, a: Armed, t: State)
    requires Ends(env, a, t)
    ensures !GoesThrough(env, t.alarm) ==> Ours(t)
  {
  }

  /** An alarm before the guarded block: the outcome is `None`, the handler is back, the deadline is
      gone. */
  lemma EarlyAlarm(redacted: Redacted)
    ensures Pristine(WITH_DEADLINE) && Arm(AT_ONCE, WITH_DEADLINE).held == WITH_DEADLINE.timer
    ensures var (t, c) := Budgeted(AT_ONCE, redacted, true, WITH_DEADLINE);
            && c == Returns(None) && t.handler == Callers && t.timer == Off && t.alarm == Raised(Starting)
            && !HandedBack(AT_ONCE, Arm(AT_ONCE, WITH_DEADLINE), t)
  {
    var a := Arm(AT_ONCE, WITH_DEADLINE);
    assert a.raised && a.s.alarm == Raised(Starting) && a.s.timer == Off;
    HandBackExactly(AT_ONCE, redacted, WITH_DEADLINE);
  }

  /** The budget never expires, and of the eight swaps only the last one does not fault. */
  const LAST_SWAP_LANDS :=
    Environment(true, (p: Place) => Moment(0.0, false, false, false), (c: Site) => if c.Swap? && c.k < 7 then Lost else Clean)

  /** Seven spoiled attempts are not too many: the eighth one hands everything back. */
  lemma SevenSpoiledAttempts(redacted: Redacted)
    ensures var (t, c) := Budgeted(LAST_SWAP_LANDS, redacted, true, WITH_DEADLINE);
            && c == Alone(redacted) && HandedBack(LAST_SWAP_LANDS, Arm(LAST_SWAP_LANDS, WITH_DEADLINE), t)
            && forall k :: 0 <= k < 7 ==> !CleanAttempt(LAST_SWAP_LANDS, t.alarm, 1, k)
  {
    hide Arm, Budgeted, HandedBack, Ends;
    LastSwapInTime();
    assert WITH_DEADLINE.timer.Deadline?;
    HandBackExactly(LAST_SWAP_LANDS, redacted, WITH_DEADLINE);
    InTimeExactly(LAST_SWAP_LANDS, redacted, WITH_DEADLINE);
    assert LAST_SWAP_LANDS.calls(Disarm(1, 7)) == Clean && LAST_SWAP_LANDS.calls(Swap(1, 7)) == Clean;
  }

  lemma LastSwapInTime()
    ensures InTime(LAST_SWAP_LANDS)
  {
  }
}
