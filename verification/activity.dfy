/**
 * The process-wide activity state: the monitoring flag, the keyboard and
 * mouse counters and the time of the last genuine activity (MONITORING,
 * KEYBOARD_COUNT, MOUSE_COUNT and LAST_GENUINE_ACTIVITY), with the
 * operations that store into them.
 *
 * Time on this clock is wall-clock seconds since the Unix epoch; a reading
 * of 0 stands for "no genuine activity recorded".
 */
module Activity {

  /** 2^64: the counters are AtomicU64. */
  const U64Modulus: nat := 0x1_0000_0000_0000_0000

  type U64 = x: nat | x < U64Modulus

  /** `fetch_add(1)` on an AtomicU64, which wraps around on overflow. */
  function WrappingInc(x: U64): (r: U64)
    ensures r == (x + 1) % U64Modulus
    ensures r != x
  {
    if x + 1 == U64Modulus then 0 else x + 1
  }

  /**
   * get_idle_time: whole seconds since the last genuine activity. It is 0
   * when none has been recorded (the sentinel `last == 0`), and also when
   * the wall clock now reads earlier than `last`.
   */
  function IdleTime(last: nat, now: nat): (idle: nat)
    ensures idle == 0 <==> last == 0 || now <= last
    ensures last != 0 && last <= now ==> last + idle == now
  {
    if last == 0 || now < last then 0 else now - last
  }

  /** Right after a genuine activity at `now`, the idle time at `now` is 0. */
  lemma IdleTimeZeroAtLastActivity(now: nat)
    ensures IdleTime(now, now) == 0
  {
  }

  /** The sentinel: before any genuine activity, idle time is 0 whatever the clock says. */
  lemma IdleTimeZeroBeforeAnyActivity(now: nat)
    ensures IdleTime(0, now) == 0
  {
  }

  /** The four globals. */
  class ActivityState {
    var monitoring: bool
    var keyboardCount: U64
    var mouseCount: U64
    var lastGenuineActivity: nat

    /** The globals' initial values: everything zero or false. */
    constructor()
      ensures !monitoring && keyboardCount == 0 && mouseCount == 0 && lastGenuineActivity == 0
    {
      monitoring := false;
      keyboardCount := 0;
      mouseCount := 0;
      lastGenuineActivity := 0;
    }

    /** increment_keyboard. */
    method IncrementKeyboard()
      modifies this
      ensures keyboardCount == WrappingInc(old(keyboardCount))
      ensures mouseCount == old(mouseCount) && lastGenuineActivity == old(lastGenuineActivity)
      ensures monitoring == old(monitoring)
    {
      keyboardCount := WrappingInc(keyboardCount);
    }

    /** increment_mouse. */
    method IncrementMouse()
      modifies this
      ensures mouseCount == WrappingInc(old(mouseCount))
      ensures keyboardCount == old(keyboardCount) && lastGenuineActivity == old(lastGenuineActivity)
      ensures monitoring == old(monitoring)
    {
      mouseCount := WrappingInc(mouseCount);
    }

    /** update_genuine_activity_time, with the wall clock reading `now`. */
    method UpdateGenuineActivityTime(isGenuine: bool, now: nat)
      modifies this
      ensures lastGenuineActivity == if isGenuine then now else old(lastGenuineActivity)
      ensures keyboardCount == old(keyboardCount) && mouseCount == old(mouseCount)
      ensures monitoring == old(monitoring)
    {
      if isGenuine {
        lastGenuineActivity := now;
      }
    }

    /**
     * The part of reset_counters that touches the globals: both counters
     * to zero and the idle clock to `now`, as if activity had just happened.
     */
    method ResetCounters(now: nat)
      modifies this
      ensures keyboardCount == 0 && mouseCount == 0 && lastGenuineActivity == now
      ensures monitoring == old(monitoring)
    {
      keyboardCount := 0;
      mouseCount := 0;
      lastGenuineActivity := now;
    }
  }
}
