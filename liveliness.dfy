/**
 * The user-liveliness hook: a record of the last activity time, whether the
 * user counts as active, whether the inactivity warning shows, and the time
 * left before the user counts as inactive. Activity resets all four (and
 * feeds the activity-entropy pool); a once-a-second check moves the record
 * along the three thresholds. The clock is the parameter `now`, in
 * milliseconds, and each timer tick is one call of `CheckInactivity`.
 */
module UserLiveliness {
  import Encryption

  /** Five minutes without activity makes the user inactive. */
  const INACTIVITY_TIMEOUT: int := 5 * 60 * 1000

  /** After four minutes without activity the warning shows. */
  const WARNING_THRESHOLD: int := 4 * 60 * 1000

  datatype LivelinessState = LivelinessState(lastActivity: int, isActive: bool, showWarning: bool, timeUntilInactive: int)

  /** The state right after activity at time now (and the state the hook starts in). */
  function AfterActivity(now: int): (s: LivelinessState)
    ensures s.lastActivity == now && s.isActive && !s.showWarning
    ensures s.timeUntilInactive == INACTIVITY_TIMEOUT
  {
    LivelinessState(now, true, false, INACTIVITY_TIMEOUT)
  }

  /** What one inactivity check at time now leaves, and whether it reached the inactive branch (which calls `onInactive`). */
  function AfterCheck(s: LivelinessState, now: int): (LivelinessState, bool) {
    var inactiveTime := now - s.lastActivity;
    var remaining := INACTIVITY_TIMEOUT - inactiveTime;
    var countdown := if 0 < remaining then remaining else 0;
    if inactiveTime >= INACTIVITY_TIMEOUT then
      (s.(isActive := false, showWarning := false, timeUntilInactive := countdown), true)
    else if inactiveTime >= WARNING_THRESHOLD then
      (s.(showWarning := true, timeUntilInactive := countdown), false)
    else
      (s.(showWarning := false, timeUntilInactive := countdown), false)
  }

  /** The countdown is the time left, clamped at zero; with a clock that did not go back it lies in [0, 300000]. */
  lemma CheckCountdown(s: LivelinessState, now: int)
    ensures var t := AfterCheck(s, now).0;
      t.lastActivity == s.lastActivity
      && t.timeUntilInactive >= 0
      && t.timeUntilInactive == (if now - s.lastActivity >= INACTIVITY_TIMEOUT then 0 else INACTIVITY_TIMEOUT - (now - s.lastActivity))
      && (now >= s.lastActivity ==> t.timeUntilInactive <= INACTIVITY_TIMEOUT)
  {
  }

  /** At five minutes or more the user becomes inactive, the warning clears and the branch that calls `onInactive` (when one is given) runs, on every such check. */
  lemma CheckInactive(s: LivelinessState, now: int)
    ensures now - s.lastActivity >= INACTIVITY_TIMEOUT <==> AfterCheck(s, now).1
    ensures AfterCheck(s, now).1 ==> !AfterCheck(s, now).0.isActive && !AfterCheck(s, now).0.showWarning
  {
  }

  /** Between four and five minutes the warning shows and the active flag stays as it was. */
  lemma CheckWarning(s: LivelinessState, now: int)
    requires WARNING_THRESHOLD <= now - s.lastActivity < INACTIVITY_TIMEOUT
    ensures AfterCheck(s, now).0.showWarning && AfterCheck(s, now).0.isActive == s.isActive
    ensures 0 < AfterCheck(s, now).0.timeUntilInactive <= INACTIVITY_TIMEOUT - WARNING_THRESHOLD
  {
  }

  /** Under four minutes the warning clears and the active flag stays as it was. */
  lemma CheckQuiet(s: LivelinessState, now: int)
    requires now - s.lastActivity < WARNING_THRESHOLD
    ensures !AfterCheck(s, now).0.showWarning && AfterCheck(s, now).0.isActive == s.isActive
    ensures !AfterCheck(s, now).1
  {
  }

  /** The state after a run of checks at the given times, with no activity in between. */
  function AfterChecks(s: LivelinessState, times: seq<int>): LivelinessState
    decreases |times|
  {
    if times == [] then s else AfterChecks(AfterCheck(s, times[0]).0, times[1..])
  }

  /** No check ever makes the user active again: only activity does. */
  lemma {:induction false} ChecksNeverActivate(s: LivelinessState, times: seq<int>)
    ensures AfterChecks(s, times).isActive ==> s.isActive
    ensures AfterChecks(s, times).lastActivity == s.lastActivity
    decreases |times|
  {
    if times != [] {
      ChecksNeverActivate(AfterCheck(s, times[0]).0, times[1..]);
    }
  }

  /** While the warning shows after a check on a clock that did not go back, the user is active if they were, and less than a minute remains. */
  lemma WarningCountdown(s: LivelinessState, now: int)
    requires now >= s.lastActivity
    requires AfterCheck(s, now).0.showWarning
    ensures 0 < AfterCheck(s, now).0.timeUntilInactive <= INACTIVITY_TIMEOUT - WARNING_THRESHOLD
    ensures AfterCheck(s, now).0.isActive == s.isActive
  {
  }

  /** The hook's refs and state, with the activity-entropy pool it feeds. */
  class LivelinessMonitor {
    var lastActivity: int
    var isActive: bool
    var showWarning: bool
    var timeUntilInactive: int
    const pool: Encryption.ActivityEntropyPool

    function State(): LivelinessState
      reads this
    {
      LivelinessState(lastActivity, isActive, showWarning, timeUntilInactive)
    }

    /** Mounting the hook at time now: active, no warning, the full five minutes left. */
    constructor (now: int, pool: Encryption.ActivityEntropyPool)
      ensures State() == AfterActivity(now) && this.pool == pool
    {
      lastActivity := now;
      isActive := true;
      showWarning := false;
      timeUntilInactive := INACTIVITY_TIMEOUT;
      this.pool := pool;
    }

    /** `recordActivity` at time now: reset the state and record now in the entropy pool. */
    method RecordActivity(now: int)
      requires pool.Valid()
      modifies this, pool
      ensures State() == AfterActivity(now)
      ensures pool.Valid() && pool.history == old(pool.history) + [now]
      ensures pool.samples == Encryption.Recorded(old(pool.samples), now)
    {
      lastActivity := now;
      isActive := true;
      showWarning := false;
      timeUntilInactive := INACTIVITY_TIMEOUT;
      pool.RecordActivityEntropy(now);
    }

    /** One tick of the inactivity check at time now; `inactiveFired` is whether the branch that calls `onInactive` (when one is given) runs. */
    method CheckInactivity(now: int) returns (inactiveFired: bool)
      modifies this
      ensures (State(), inactiveFired) == AfterCheck(old(State()), now)
    {
      var inactiveTime := now - lastActivity;
      var remaining := INACTIVITY_TIMEOUT - inactiveTime;
      timeUntilInactive := if 0 < remaining then remaining else 0;
      inactiveFired := false;
      if inactiveTime >= INACTIVITY_TIMEOUT {
        isActive := false;
        showWarning := false;
        inactiveFired := true;
      } else if inactiveTime >= WARNING_THRESHOLD {
        showWarning := true;
      } else {
        showWarning := false;
      }
    }
  }
}
