/** A one-shot budget alarm over the process's signal state, as a machine on plain values. The
    environment is an input: what happens at every control point where an alarm may be delivered,
    and how every restoring call goes. */
module AlarmMachine {
  import opened Wrappers

  const RESTORE_ATTEMPTS := 8
  const MIN_RESTORED_TIMER := 0.000001

  // ---------- The environment ----------

  /** Where in one restore attempt: before the `try`, in its guarded block before the disarming
      call, before the handler swap and after it, and on the way to the next attempt. */
  datatype Spot = Looping | Disarming | Swapping | Settling | Continuing

  /** The control points at which an alarm may be delivered, in program order. There are at most
      two restores, the second one after an alarm cut the first one short. */
  datatype Place =
    | Installing | Arming | Starting | Entering
    | Calling | Running
    | Finishing(restore: nat)
    | Attempt(restore: nat, k: nat, spot: Spot)
    | Computing(restore: nat) | Setting(restore: nat)
    | Returning | Leaving | Returned

  type Span = x: real | 0.0 <= x witness 0.0

  /** What the environment does at a place: how much time passes, whether a running budget expires,
      whether a pending alarm is delivered, and whether the handler swap the budget handler itself makes
      fails to take effect. */
  datatype Moment = Moment(elapsed: Span, fires: bool, delivers: bool, handlerFaults: bool)

  /** The calls that restore something. */
  datatype Site = Disarm(restore: nat, k: nat) | Swap(restore: nat, k: nat) | Rearm(restore: nat)

  /** How such a call goes. A call that raises may or may not have taken effect. */
  datatype Effect = Clean | Landed | Lost

  /** `prompt`: a pending alarm is delivered no later than the next place. */
  datatype Environment = Environment(prompt: bool, moments: Place -> Moment, calls: Site -> Effect)

  // ---------- The signal state ----------

  datatype Handler = Callers | Budgets

  /** The interval timer: off, running our budget, or running a deadline of the caller's. */
  datatype Timer = Off | Budget | Deadline(expiry: real, interval: real)

  /** What has become of the budget alarm: it interrupted the program at a place, or it reached the
      caller's own handler. */
  datatype Alarm = NotYet | Raised(at: Place) | Stray(at: Place)

  /** `pending`: the budget has expired, its alarm is to be delivered. `own`: how many alarms of its
      own the caller's handler got. */
  datatype State = State(handler: Handler, timer: Timer, pending: bool, clock: real, alarm: Alarm, own: nat)

  /** Time passes and the timer may expire. A deadline of the caller's is taken not to come due
      while the budget's handler is in place. */
  function Pass(env: Environment, p: Place, s: State): State {
    var m := env.moments(p);
    var now := s.clock + m.elapsed;
    match s.timer
    case Off => s.(clock := now)
    case Budget => if m.fires then s.(clock := now, timer := Off, pending := true) else s.(clock := now)
    case Deadline(expiry, interval) =>
      if now < expiry then s.(clock := now)
      else if s.handler.Budgets? then s
      else s.(clock := now, timer := if interval == 0.0 then Off else Deadline(now + interval, interval), own := s.own + 1)
  }

  /** Passing a place: the state after it, and whether the budget's exception is raised there. The
      budget handler puts the caller's handler back before it raises. */
  function Cross(env: Environment, p: Place, s: State): (State, bool) {
    var m, t := env.moments(p), Pass(env, p, s);
    if !(t.pending && (m.delivers || (env.prompt && s.pending))) then (t, false)
    else if t.handler.Callers? then (t.(pending := false, alarm := Stray(p)), false)
    else (t.(pending := false, alarm := Raised(p), handler := if m.handlerFaults then Budgets else Callers), true)
  }

  // ---------- Arming ----------

  /** What arming saved of the caller's timer, and when the budget started. */
  datatype Saved = Saved(remaining: real, interval: real, started: real)

  datatype Armed = Armed(s: State, raised: bool, held: Timer, saved: Saved)

  function Arm(env: Environment, s: State): Armed {
    var before := Cross(env, Installing, s).0;
    var installed := Cross(env, Arming, before.(handler := Budgets)).0;
    var held := installed.timer;
    var remaining := if held.Deadline? then held.expiry - installed.clock else 0.0;
    var interval := if held.Deadline? then held.interval else 0.0;
    var (running, early) := Cross(env, Starting, installed.(timer := Budget));
    if early then Armed(running, true, held, Saved(remaining, interval, running.clock))
    else
      var (entering, late) := Cross(env, Entering, running);
      Armed(entering, late, held, Saved(remaining, interval, running.clock))
  }

  // ---------- Restoring ----------

  function Disarmed(env: Environment, r: nat, k: nat, s: State): State {
    if env.calls(Disarm(r, k)).Lost? then s else s.(timer := Off)
  }

  function Swapped(env: Environment, r: nat, k: nat, s: State): State {
    if env.calls(Swap(r, k)).Lost? then s else s.(handler := Callers)
  }

  /** The guarded block of one attempt; false when a fault or the alarm spoils it. */
  function TryRestore(env: Environment, r: nat, k: nat, s: State): (State, bool) {
    var (s1, raised1) := Cross(env, Attempt(r, k, Disarming), s);
    if raised1 then (s1, false)
    else
      var s2 := Disarmed(env, r, k, s1);
      if !env.calls(Disarm(r, k)).Clean? then (s2, false)
      else
        var (s3, raised3) := Cross(env, Attempt(r, k, Swapping), s2);
        if raised3 then (s3, false)
        else
          var s4 := Swapped(env, r, k, s3);
          if !env.calls(Swap(r, k)).Clean? then (s4, false)
          else
            var (s5, raised5) := Cross(env, Attempt(r, k, Settling), s4);
            (s5, !raised5)
  }

  /** How a restore ends: through, its attempts spent, or cut short by the alarm. */
  datatype End = Settled | Spent | Escaped

  function Attempts(env: Environment, r: nat, k: nat, s: State): (State, End)
    requires k <= RESTORE_ATTEMPTS
    decreases RESTORE_ATTEMPTS - k
  {
    if k == RESTORE_ATTEMPTS then (s, Spent)
    else
      var (s1, raised1) := Cross(env, Attempt(r, k, Looping), s);
      if raised1 then (s1, Escaped)
      else
        var (s2, settled) := TryRestore(env, r, k, s1);
        if settled then (s2, Settled)
        else
          var (s3, raised3) := Cross(env, Attempt(r, k, Continuing), s2);
          if raised3 then (s3, Escaped) else Attempts(env, r, k + 1, s3)
  }

  function Max(a: real, b: real): real {
    if a < b then b else a
  }

  /** `setitimer(value, interval)` at clock reading `now`: zero disarms. */
  function Started(now: real, value: real, interval: real): Timer {
    if value == 0.0 then Off else Deadline(now + value, interval)
  }

  /** Gives the caller's deadline back, if it had one. */
  function Rearmed(env: Environment, r: nat, saved: Saved, s: State): State {
    var s1 := Cross(env, Computing(r), s).0;
    if saved.remaining == 0.0 then s1
    else
      var restored := saved.remaining - (s1.clock - saved.started);
      var s2 := Cross(env, Setting(r), s1).0;
      if env.calls(Rearm(r)).Lost? then s2
      else s2.(timer := Started(s2.clock, Max(restored, MIN_RESTORED_TIMER), saved.interval))
  }

  function Restore(env: Environment, r: nat, saved: Saved, s: State): (State, End) {
    var (s1, raised) := Cross(env, Finishing(r), s);
    if raised then (s1, Escaped)
    else
      var (s2, end) := Attempts(env, r, 0, s1);
      (if end.Settled? then Rearmed(env, r, saved, s2) else s2, end)
  }

  // ---------- A budgeted call ----------

  datatype Exception = BudgetExceeded | RedactorError(code: int)

  /** What calling the redactor on its own would do. */
  datatype Redacted = Redacts(text: string) | Fails(code: int)

  /** How a call ends: with a value or `None`, or by raising. */
  datatype Completion = Returns(value: Option<string>) | Raises(exc: Exception)

  function Alone(r: Redacted): Completion {
    match r
    case Redacts(text) => Returns(Some(text))
    case Fails(code) => Raises(RedactorError(code))
  }

  /** `redactor(text)`, interruptible before and during the call. */
  function Called(env: Environment, redacted: Redacted, s: State): (State, Completion) {
    var (s1, raised1) := Cross(env, Calling, s);
    if raised1 then (s1, Raises(BudgetExceeded))
    else
      var (s2, raised2) := Cross(env, Running, s1);
      (s2, if raised2 then Raises(BudgetExceeded) else Alone(redacted))
  }

  /** Arm, run, restore. */
  function Watched(env: Environment, redacted: Redacted, s: State): (State, Completion) {
    var armed := Arm(env, s);
    if armed.raised then (armed.s, Raises(BudgetExceeded))
    else
      var (s1, inner) := Called(env, redacted, armed.s);
      var (s2, end) := Restore(env, 1, armed.saved, s1);
      var (s3, cut) := if end.Escaped? then (s2, true) else Cross(env, Returning, s2);
      if cut then
        var (s4, again) := Restore(env, 2, armed.saved, s3);
        (s4, if again.Escaped? then Raises(BudgetExceeded) else Returns(None))
      else if inner.Raises? && inner.exc != BudgetExceeded then (s3, inner)
      else
        var (s4, raised) := Cross(env, Leaving, s3);
        (s4, if raised then Raises(BudgetExceeded) else if inner.Returns? then inner else Returns(None))
  }

  /** The whole budgeted call. Where the watchdog cannot arm, the redactor runs alone. */
  function Budgeted(env: Environment, redacted: Redacted, canArm: bool, s: State): (State, Completion) {
    if !canArm then (s, Alone(redacted))
    else
      var (s1, c) := Watched(env, redacted, s);
      if c == Raises(BudgetExceeded) then (s1, Returns(None))
      else
        var (s2, raised) := Cross(env, Returned, s1);
        (s2, if raised then Returns(None) else c)
  }
}
