/** Redaction under a wall-clock budget, statement by statement, on the process's signal state. */
module Redaction {
  import opened Wrappers
  import opened AlarmMachine
  import opened RedactionRuns

  /** The process-wide signal state the watchdog borrows, in an environment. */
  class Signals {
    const env: Environment
    var handler: Handler
    var timer: Timer
    var pending: bool
    var clock: real
    var alarm: Alarm
    var own: nat

    function Now(): State
      reads this
    {
      State(handler, timer, pending, clock, alarm, own)
    }

    constructor (env: Environment, timer: Timer, clock: real)
      ensures this.env == env && Now() == State(Callers, timer, false, clock, NotYet, 0)
    {
      this.env := env;
      handler, this.timer, pending, this.clock, alarm, own := Callers, timer, false, clock, NotYet, 0;
    }

    /** Time passes and the timer may expire. */
    method Elapse(p: Place)
      modifies this`timer, this`pending, this`clock, this`own
      ensures Now() == Pass(env, p, old(Now()))
    {
      var m := env.moments(p);
      match timer {
        case Off =>
          clock := clock + m.elapsed;
        case Budget =>
          clock := clock + m.elapsed;
          if m.fires {
            timer, pending := Off, true;
          }
        case Deadline(expiry, interval) =>
          if clock + m.elapsed < expiry {
            clock := clock + m.elapsed;
          } else if handler == Callers {
            clock, own := clock + m.elapsed, own + 1;
            timer := if interval == 0.0 then Off else Deadline(clock + interval, interval);
          }
      }
    }

    /** A place where an alarm may be delivered. The budget's handler puts the caller's back and
        raises. */
    method Boundary(p: Place) returns (raised: bool)
      modifies this
      ensures (Now(), raised) == Cross(env, p, old(Now()))
    {
      hide Pass;
      var m := env.moments(p);
      var due := m.delivers || (env.prompt && pending);
      Elapse(p);
      raised := false;
      if pending && due {
        pending := false;
        if handler == Callers {
          alarm := Stray(p);
        } else {
          if !m.handlerFaults {
            handler := Callers;
          }
          alarm, raised := Raised(p), true;
        }
      }
    }

    /** `setitimer(0)`. */
    method StopTimer(r: nat, k: nat) returns (fault: bool)
      modifies this`timer
      ensures Now() == Disarmed(env, r, k, old(Now())) && fault == !env.calls(Disarm(r, k)).Clean?
    {
      var effect := env.calls(Disarm(r, k));
      if effect != Lost {
        timer := Off;
      }
      fault := effect != Clean;
    }

    /** `signal.signal` with the caller's handler. */
    method RestoreHandler(r: nat, k: nat) returns (fault: bool)
      modifies this`handler
      ensures Now() == Swapped(env, r, k, old(Now())) && fault == !env.calls(Swap(r, k)).Clean?
    {
      var effect := env.calls(Swap(r, k));
      if effect != Lost {
        handler := Callers;
      }
      fault := effect != Clean;
    }

    /** The guarded block of one restore attempt: true when it went through, false when a fault
        or the alarm sent it to its `continue`. */
    method TryOnce(r: nat, k: nat) returns (settled: bool)
      modifies this
      ensures (Now(), settled) == TryRestore(env, r, k, old(Now()))
    {
      var raised := Boundary(Attempt(r, k, Disarming));
      if raised {
        return false;
      }
      var fault := StopTimer(r, k);
      if fault {
        return false;
      }
      raised := Boundary(Attempt(r, k, Swapping));
      if raised {
        return false;
      }
      fault := RestoreHandler(r, k);
      if fault {
        return false;
      }
      raised := Boundary(Attempt(r, k, Settling));
      return !raised;
    }

    /** The bounded loop of restore attempts. */
    method AttemptRestores(r: nat) returns (end: End)
      modifies this
      ensures (Now(), end) == Attempts(env, r, 0, old(Now()))
    {
      for k := 0 to RESTORE_ATTEMPTS
        invariant Attempts(env, r, k, Now()) == Attempts(env, r, 0, old(Now()))
      {
        var raised := Boundary(Attempt(r, k, Looping));
        if raised {
          return Escaped;
        }
        var settled := TryOnce(r, k);
        if settled {
          return Settled;
        }
        raised := Boundary(Attempt(r, k, Continuing));
        if raised {
          return Escaped;
        }
      }
      return Spent;
    }

    /** Gives the caller's deadline back. No alarm of ours can raise any more. */
    method RearmDeadline(r: nat, saved: Saved)
      modifies this
      ensures Now() == Rearmed(env, r, saved, old(Now()))
    {
      var raised := Boundary(Computing(r));
      if saved.remaining != 0.0 {
        var restored := saved.remaining - (clock - saved.started);
        raised := Boundary(Setting(r));
        if env.calls(Rearm(r)) != Lost {
          timer := Started(clock, if restored < MIN_RESTORED_TIMER then MIN_RESTORED_TIMER else restored, saved.interval);
        }
      }
    }

    /** Disarms the budget and gives the caller back its handler and its deadline. */
    method RestoreAfterBudget(r: nat, saved: Saved) returns (end: End)
      modifies this
      ensures (Now(), end) == Restore(env, r, saved, old(Now()))
    {
      var raised := Boundary(Finishing(r));
      if raised {
        return Escaped;
      }
      end := AttemptRestores(r);
      if end == Settled {
        RearmDeadline(r, saved);
      }
    }

    /** Installs the budget's handler and starts the budget. */
    method ArmBudget() returns (raised: bool, held: Timer, saved: Saved)
      modifies this
      ensures Armed(Now(), raised, held, saved) == Arm(env, old(Now()))
    {
      raised := Boundary(Installing);
      handler := Budgets;
      raised := Boundary(Arming);
      held := timer;
      var remaining, interval := 0.0, 0.0;
      if held.Deadline? {
        remaining, interval := held.expiry - clock, held.interval;
      }
      timer := Budget;
      raised := Boundary(Starting);
      saved := Saved(remaining, interval, clock);
      if !raised {
        raised := Boundary(Entering);
      }
    }

    method CallRedactor(text: string, redact: string -> Redacted) returns (c: Completion)
      modifies this
      ensures (Now(), c) == Called(env, redact(text), old(Now()))
    {
      var raised := Boundary(Calling);
      if !raised {
        raised := Boundary(Running);
      }
      if raised {
        return Raises(BudgetExceeded);
      }
      match redact(text) {
        case Redacts(out) => c := Returns(Some(out));
        case Fails(code) => c := Raises(RedactorError(code));
      }
    }

    /** Arm, run, restore. The budget's exception comes out exactly when the alarm was raised before
        the guarded block or after the restore was done with. */
    method RedactUnderWatchdog(text: string, redact: string -> Redacted) returns (c: Completion)
      modifies this
      ensures (Now(), c) == Watched(env, redact(text), old(Now()))
      ensures Pristine(old(Now())) ==>
                && (c == Raises(BudgetExceeded) <==>
                      alarm == Raised(Starting) || alarm == Raised(Entering) || alarm == Raised(Leaving))
                && (!Overran(alarm) ==> match redact(text)
                                        case Redacts(out) => c == Returns(Some(out))
                                        case Fails(code) => c == Raises(RedactorError(code)))
                && (Overran(alarm) ==> c == Raises(BudgetExceeded) || c == Returns(None))
    {
      hide Arm, Called, Restore, Cross, Pristine;
      ghost var before := Now();
      if Pristine(before) {
        WatchedExactly(env, redact(text), before);
      }
      var raised, held, saved := ArmBudget();
      if raised {
        return Raises(BudgetExceeded);
      }
      // try
      var inner := CallRedactor(text, redact);
      var finished: Option<string> := if inner.Returns? then inner.value else None;
      // finally
      var end := RestoreAfterBudget(1, saved);
      var cut := end == Escaped;
      if !cut {
        cut := Boundary(Returning);
      }
      if cut {
        end := RestoreAfterBudget(2, saved);
        return if end == Escaped then Raises(BudgetExceeded) else Returns(None);
      }
      if inner.Raises? && inner.exc != BudgetExceeded {
        return inner;
      }
      raised := Boundary(Leaving);
      return if raised then Raises(BudgetExceeded) else Returns(finished);
    }

    /** The redacted text, or `None` when the budget was exceeded. Whatever the environment does:
        the outcome is `None` exactly if the alarm came outside a guarded restoring block, and the
        caller's handler and timer are handed back exactly under the stated conditions on where
        it came and which calls faulted. */
    method RedactWithinBudget(text: string, redact: string -> Redacted, canArm: bool) returns (c: Completion)
      modifies this
      ensures (Now(), c) == Budgeted(env, redact(text), canArm, old(Now()))
      ensures !canArm ==> Now() == old(Now())
      ensures !canArm || (Pristine(old(Now())) && !Overran(alarm)) ==>
                match redact(text)
                case Redacts(out) => c == Returns(Some(out))
                case Fails(code) => c == Raises(RedactorError(code))
      ensures canArm && Pristine(old(Now())) ==>
                var a := Arm(env, old(Now()));
                && (c == Returns(None) <==> Overran(alarm))
                && (handler == Callers <==> HandlerBack(env, alarm))
                && (HandedBack(env, a, Now()) <==>
                      if a.held.Deadline? then GoesThrough(env, alarm) && env.calls(Rearm(LastRestore(alarm))) != Lost
                      else HandlerBack(env, alarm))
                && (env.prompt ==> !alarm.Stray? && (handler == Callers ==> !pending && timer != Budget))
    {
      hide Arm, Pristine, HandedBack, GoesThrough, HandlerBack, Overran, LastRestore, Cross, Watched;
      ghost var before := Now();
      if canArm && Pristine(before) {
        OutcomeExactly(env, redact(text), before);
        HandBackExactly(env, redact(text), before);
        if env.prompt {
          NoStrayAlarm(env, redact(text), before);
        }
      }
      if !canArm {
        match redact(text) {
          case Redacts(out) => return Returns(Some(out));
          case Fails(code) => return Raises(RedactorError(code));
        }
      }
      c := RedactUnderWatchdog(text, redact);
      if c == Raises(BudgetExceeded) {
        return Returns(None);
      }
      var raised := Boundary(Returned);
      if raised {
        return Returns(None);
      }
    }
  }
}
