/**
 * What the macOS and Windows back ends have in common: the RUNNING flag and
 * its start/stop guard, PRESSED_KEYS, the handling of a decoded key or mouse
 * event, and the periodic stale-key cleanup of the pump loop. The platform
 * modules decode raw events and hand them to an Adapter.
 *
 * Key events carry two clock readings, as in the source: the monotonic
 * reading (`mono`, milliseconds) used by the key tracker, and the wall-clock
 * reading (`epoch`, seconds) stored as the last genuine activity.
 */
module Adapter {
  import opened KeyTracking
  import opened Activity

  /** The pump loop's cleanup_interval: ten seconds on the monotonic clock. */
  const CleanupInterval: nat := 10000

  /** The pump loop's test `now.duration_since(last_cleanup) > cleanup_interval`. */
  predicate CleanupDue(lastCleanup: nat, now: nat)
  {
    Age(now, lastCleanup) > CleanupInterval
  }

  /** What event handling reads and writes: PRESSED_KEYS and three of the globals. */
  datatype Observed<K> = Observed(pressed: map<K, nat>, keyboard: U64, mouse: U64, lastGenuine: nat)

  /**
   * A decoded key event: the tracker's verdict decides both effects. The
   * keyboard counter moves (by one, wrapping) exactly on a new press, and
   * exactly then the idle clock is set to `epoch`.
   */
  function OnKey<K(==)>(s: Observed<K>, key: K, isDown: bool, mono: nat, epoch: nat): (r: Observed<K>)
    ensures r.pressed == Classify(s.pressed, key, isDown, mono).pressed
    ensures r.keyboard != s.keyboard <==> isDown && !Held(s.pressed, key, mono)
    ensures r.keyboard == (s.keyboard + if r.keyboard != s.keyboard then 1 else 0) % U64Modulus
    ensures r.lastGenuine == if isDown && !Held(s.pressed, key, mono) then epoch else s.lastGenuine
    ensures r.mouse == s.mouse
  {
    var c := Classify(s.pressed, key, isDown, mono);
    Observed(c.pressed,
             if c.countable then WrappingInc(s.keyboard) else s.keyboard,
             s.mouse,
             if c.genuine then epoch else s.lastGenuine)
  }

  /** A mouse event: always counted and always genuine; no timeout applies. */
  function OnMouse<K>(s: Observed<K>, epoch: nat): (r: Observed<K>)
    ensures r.mouse == (s.mouse + 1) % U64Modulus
    ensures r.lastGenuine == epoch && IdleTime(r.lastGenuine, epoch) == 0
    ensures r.pressed == s.pressed && r.keyboard == s.keyboard
  {
    Observed(s.pressed, s.keyboard, WrappingInc(s.mouse), epoch)
  }

  /** A decoded event as the platform layer hands it over. */
  datatype Event<K> = KeyEvent(key: K, isDown: bool, mono: nat, epoch: nat) | MouseEvent(epoch: nat)

  function Apply<K(==)>(s: Observed<K>, e: Event<K>): Observed<K>
  {
    match e
    case KeyEvent(key, isDown, mono, epoch) => OnKey(s, key, isDown, mono, epoch)
    case MouseEvent(epoch) => OnMouse(s, epoch)
  }

  /** The effect of a run of events, handled one after another. */
  function Run<K(==)>(s: Observed<K>, events: seq<Event<K>>): Observed<K>
    decreases |events|
  {
    if events == [] then s else Run(Apply(s, events[0]), events[1..])
  }

  /**
   * n mouse events in a row raise the mouse counter by exactly n (modulo
   * 2^64), leave the keyboard side alone, and leave the idle clock at the
   * last event's time, so the idle time then is 0.
   */
  lemma {:induction false} MouseRunCountsEach<K>(s: Observed<K>, events: seq<Event<K>>)
    requires forall i :: 0 <= i < |events| ==> events[i].MouseEvent?
    decreases |events|
    ensures Run(s, events).mouse == (s.mouse + |events|) % U64Modulus
    ensures Run(s, events).keyboard == s.keyboard && Run(s, events).pressed == s.pressed
    ensures events != [] ==> Run(s, events).lastGenuine == events[|events| - 1].epoch
    ensures events != [] ==> IdleTime(Run(s, events).lastGenuine, events[|events| - 1].epoch) == 0
  {
    if events != [] {
      var next := Apply(s, events[0]);
      MouseRunCountsEach(next, events[1..]);
      assert (next.mouse + |events[1..]|) % U64Modulus == (s.mouse + |events|) % U64Modulus by {
        ModAddOne(s.mouse, |events[1..]|);
      }
      if |events| > 1 {
        assert events[1..][|events[1..]| - 1] == events[|events| - 1];
      }
    }
  }

  /** ((a + 1) mod M + n) mod M == (a + 1 + n) mod M, for the counter modulus M. */
  lemma ModAddOne(a: nat, n: nat)
    ensures ((a + 1) % U64Modulus + n) % U64Modulus == (a + 1 + n) % U64Modulus
  {
    if a + 1 >= U64Modulus {
      assert a + 1 == U64Modulus + (a + 1 - U64Modulus);
    }
  }

  /** Every event in `events` is a key-down on `key` no later than `until`. */
  ghost predicate KeyDownsUntil<K>(events: seq<Event<K>>, key: K, until: nat)
  {
    forall i :: 0 <= i < |events| ==>
      events[i].KeyEvent? && events[i].key == key && events[i].isDown && events[i].mono <= until
  }

  /** While a key is held, further key-downs on it change nothing at all. */
  lemma {:induction false} HeldKeyRepeatsIgnored<K>(s: Observed<K>, key: K, events: seq<Event<K>>)
    requires key in s.pressed
    requires KeyDownsUntil(events, key, s.pressed[key] + KeyTimeout)
    decreases |events|
    ensures Run(s, events) == s
  {
    if events != [] {
      assert Held(s.pressed, key, events[0].mono);
      assert Apply(s, events[0]) == s;
      HeldKeyRepeatsIgnored(s, key, events[1..]);
    }
  }

  /**
   * Auto-repeat: of a run of key-downs on a key that was not pressed, all
   * within KeyTimeout of the first, only the first is counted and only the
   * first moves the idle clock.
   */
  lemma AutoRepeatCountsOnce<K>(s: Observed<K>, key: K, events: seq<Event<K>>)
    requires key !in s.pressed && events != [] && events[0].KeyEvent?
    requires KeyDownsUntil(events, key, events[0].mono + KeyTimeout)
    ensures Run(s, events) ==
            Observed(s.pressed[key := events[0].mono], WrappingInc(s.keyboard), s.mouse, events[0].epoch)
  {
    var first := Apply(s, events[0]);
    assert first == Observed(s.pressed[key := events[0].mono], WrappingInc(s.keyboard), s.mouse, events[0].epoch);
    assert KeyDownsUntil(events[1..], key, first.pressed[key] + KeyTimeout) by {
      forall i | 0 <= i < |events[1..]|
        ensures events[1..][i] == events[i + 1]
      {
      }
    }
    HeldKeyRepeatsIgnored(first, key, events[1..]);
  }

  /**
   * One pass of the pump loop's cleanup bookkeeping: when more than
   * CleanupInterval has passed since the last cleanup, the stale keys are
   * dropped and the cleanup time becomes `now`; otherwise nothing changes.
   */
  function Tick<K(==)>(pressed: map<K, nat>, lastCleanup: nat, now: nat): (map<K, nat>, nat)
  {
    if CleanupDue(lastCleanup, now) then (Retain(pressed, now), now) else (pressed, lastCleanup)
  }

  /** Pump passes at the given monotonic times, with no key events in between. */
  function PumpPasses<K(==)>(pressed: map<K, nat>, lastCleanup: nat, times: seq<nat>): (map<K, nat>, nat)
    decreases |times|
  {
    if times == [] then (pressed, lastCleanup)
    else
      var next := Tick(pressed, lastCleanup, times[0]);
      PumpPasses(next.0, next.1, times[1..])
  }

  function Max(a: nat, b: nat): nat
  {
    if a < b then b else a
  }

  /** Pump passes only ever remove keys. */
  lemma {:induction false} EvictedStaysEvicted<K>(pressed: map<K, nat>, key: K, lastCleanup: nat, times: seq<nat>)
    requires key !in pressed
    ensures key !in PumpPasses(pressed, lastCleanup, times).0
    decreases |times|
  {
    if times != [] {
      var next := Tick(pressed, lastCleanup, times[0]);
      EvictedStaysEvicted(next.0, key, next.1, times[1..]);
    }
  }

  /**
   * The induction behind StuckKeyEvictedWithinBound: as long as the key
   * survives, every cleanup that kept it ran before stamp + KeyTimeout, so
   * the last cleanup time stays at or below `bound`.
   */
  lemma {:induction false} StuckKeyEvictedBy<K>(pressed: map<K, nat>, key: K, stamp: nat, bound: nat,
                                                lastCleanup: nat, times: seq<nat>, i: nat)
    requires stamp + KeyTimeout <= bound
    requires key in pressed ==> pressed[key] == stamp && lastCleanup <= bound
    requires i < |times| && times[i] > bound + CleanupInterval
    ensures key !in PumpPasses(pressed, lastCleanup, times).0
    decreases |times|
  {
    var next := Tick(pressed, lastCleanup, times[0]);
    if key !in next.0 {
      EvictedStaysEvicted(next.0, key, next.1, times[1..]);
    } else {
      assert key in pressed && Age(times[0], stamp) < KeyTimeout ==> times[0] < bound;
      assert i != 0;
      StuckKeyEvictedBy(next.0, key, stamp, bound, next.1, times[1..], i - 1);
    }
  }

  /**
   * Stale-key cleanup self-heals a lost key-up: with no further events on a
   * key, it is evicted by the first pump pass later than CleanupInterval
   * after both the last cleanup and the moment the key turns KeyTimeout old.
   */
  lemma StuckKeyEvictedWithinBound<K>(pressed: map<K, nat>, key: K, lastCleanup: nat, times: seq<nat>, i: nat)
    requires key in pressed
    requires i < |times| && times[i] > Max(lastCleanup, pressed[key] + KeyTimeout) + CleanupInterval
    ensures key !in PumpPasses(pressed, lastCleanup, times).0
  {
    StuckKeyEvictedBy(pressed, key, pressed[key], Max(lastCleanup, pressed[key] + KeyTimeout), lastCleanup, times, i);
  }

  /*
   * Event handling and the pump's cleanup step interleave on the monitoring
   * thread: events are dispatched inside each pump call, and the cleanup
   * step follows it. A trace is such an interleaving.
   */

  /** One step of the monitoring thread: a decoded event, or a cleanup step at monotonic time `t`. */
  datatype Step<K> = Ev(event: Event<K>) | Pass(t: nat)

  /** The thread's state: the observed globals and map, and the loop's last_cleanup. */
  datatype Pumped<K> = Pumped(obs: Observed<K>, lastCleanup: nat)

  function Perform<K(==)>(p: Pumped<K>, step: Step<K>): Pumped<K>
  {
    match step
    case Ev(e) => Pumped(Apply(p.obs, e), p.lastCleanup)
    case Pass(t) =>
      var next := Tick(p.obs.pressed, p.lastCleanup, t);
      Pumped(p.obs.(pressed := next.0), next.1)
  }

  /** The effect of a trace, step by step. */
  function Trace<K(==)>(p: Pumped<K>, steps: seq<Step<K>>): Pumped<K>
    decreases |steps|
  {
    if steps == [] then p else Trace(Perform(p, steps[0]), steps[1..])
  }

  /**
   * Every step is a key-down on `key` no later than `until`, or a cleanup
   * step strictly before `until`.
   */
  ghost predicate RepeatsBefore<K>(steps: seq<Step<K>>, key: K, until: nat)
  {
    forall i :: 0 <= i < |steps| ==>
      match steps[i]
      case Ev(e) => e.KeyEvent? && e.key == key && e.isDown && e.mono <= until
      case Pass(t) => t < until
  }

  /**
   * Auto-repeat suppression with cleanup steps in between: while every
   * cleanup runs before the key turns KeyTimeout old, key-downs on the held
   * key leave both counters and the idle clock alone and keep its stamp.
   */
  lemma {:induction false} RepeatsIgnoredAcrossPasses<K>(p: Pumped<K>, key: K, steps: seq<Step<K>>)
    requires key in p.obs.pressed
    requires RepeatsBefore(steps, key, p.obs.pressed[key] + KeyTimeout)
    decreases |steps|
    ensures var q := Trace(p, steps);
            key in q.obs.pressed && q.obs.pressed[key] == p.obs.pressed[key]
            && q.obs.keyboard == p.obs.keyboard && q.obs.mouse == p.obs.mouse
            && q.obs.lastGenuine == p.obs.lastGenuine
  {
    if steps != [] {
      var q := Perform(p, steps[0]);
      match steps[0] {
        case Ev(e) =>
          assert Held(p.obs.pressed, key, e.mono);
        case Pass(t) =>
          assert Age(t, p.obs.pressed[key]) < KeyTimeout;
      }
      assert key in q.obs.pressed && q.obs.pressed[key] == p.obs.pressed[key];
      assert RepeatsBefore(steps[1..], key, q.obs.pressed[key] + KeyTimeout) by {
        forall i | 0 <= i < |steps[1..]|
          ensures steps[1..][i] == steps[i + 1]
        {
        }
      }
      RepeatsIgnoredAcrossPasses(q, key, steps[1..]);
    }
  }

  /**
   * Auto-repeat with cleanup steps in between: a key-down on an unpressed
   * key counts once, and later key-downs within KeyTimeout of it do not,
   * as long as every cleanup step runs before the key turns KeyTimeout old.
   */
  lemma AutoRepeatCountsOnceAcrossPasses<K>(p: Pumped<K>, key: K, first: Event<K>, steps: seq<Step<K>>)
    requires key !in p.obs.pressed && first.KeyEvent? && first.key == key && first.isDown
    requires RepeatsBefore(steps, key, first.mono + KeyTimeout)
    ensures var q := Trace(p, [Ev(first)] + steps);
            q.obs.keyboard == WrappingInc(p.obs.keyboard) && q.obs.mouse == p.obs.mouse
            && q.obs.lastGenuine == first.epoch
            && key in q.obs.pressed && q.obs.pressed[key] == first.mono
  {
    var q := Perform(p, Ev(first));
    assert ([Ev(first)] + steps)[1..] == steps;
    RepeatsIgnoredAcrossPasses(q, key, steps);
  }

  /**
   * The exception at the boundary: a cleanup step that is due exactly when
   * the key turns KeyTimeout old evicts it, so a key-down at that same
   * moment counts again, although a key-down at that age is otherwise an
   * auto-repeat.
   */
  lemma CleanupAtTimeoutRecountsRepeat<K>(p: Pumped<K>, key: K, epoch: nat)
    requires key in p.obs.pressed && CleanupDue(p.lastCleanup, p.obs.pressed[key] + KeyTimeout)
    ensures var at := p.obs.pressed[key] + KeyTimeout;
            Held(p.obs.pressed, key, at)
            && Trace(p, [Pass(at), Ev(KeyEvent(key, true, at, epoch))]).obs.keyboard == WrappingInc(p.obs.keyboard)
  {
    var at := p.obs.pressed[key] + KeyTimeout;
    var down := Ev(KeyEvent(key, true, at, epoch));
    var q := Perform(p, Pass(at));
    assert key !in q.obs.pressed;
    assert q.obs.keyboard == p.obs.keyboard;
    var r := Perform(q, down);
    assert r.obs.keyboard == WrappingInc(p.obs.keyboard);
    assert [Pass(at), down][1..] == [down] && [down][1..] == [];
    assert Trace(q, [down]) == Trace(r, []);
  }

  /** No step of the trace is a key event on `key`. */
  ghost predicate NoEventsOn<K>(steps: seq<Step<K>>, key: K)
  {
    forall i :: 0 <= i < |steps| ==> !(steps[i].Ev? && steps[i].event.KeyEvent? && steps[i].event.key == key)
  }

  lemma NoEventsOnTail<K>(steps: seq<Step<K>>, key: K)
    requires steps != [] && NoEventsOn(steps, key)
    ensures NoEventsOn(steps[1..], key)
  {
    forall i | 0 <= i < |steps[1..]|
      ensures steps[1..][i] == steps[i + 1]
    {
    }
  }

  /** Mouse events, other keys' events and cleanup steps never add `key` to the map. */
  lemma {:induction false} GoneStaysGone<K>(p: Pumped<K>, key: K, steps: seq<Step<K>>)
    requires key !in p.obs.pressed && NoEventsOn(steps, key)
    ensures key !in Trace(p, steps).obs.pressed
    decreases |steps|
  {
    if steps != [] {
      NoEventsOnTail(steps, key);
      GoneStaysGone(Perform(p, steps[0]), key, steps[1..]);
    }
  }

  /** The induction behind StuckKeyEvictedAmidEvents, over a trace. */
  lemma {:induction false} StuckKeyEvictedInTrace<K>(p: Pumped<K>, key: K, stamp: nat, bound: nat,
                                                     steps: seq<Step<K>>, i: nat)
    requires stamp + KeyTimeout <= bound
    requires key in p.obs.pressed ==> p.obs.pressed[key] == stamp && p.lastCleanup <= bound
    requires NoEventsOn(steps, key)
    requires i < |steps| && steps[i].Pass? && steps[i].t > bound + CleanupInterval
    ensures key !in Trace(p, steps).obs.pressed
    decreases |steps|
  {
    var q := Perform(p, steps[0]);
    NoEventsOnTail(steps, key);
    if key !in q.obs.pressed {
      GoneStaysGone(q, key, steps[1..]);
    } else {
      assert key in p.obs.pressed;
      if steps[0].Pass? {
        assert Age(steps[0].t, stamp) < KeyTimeout ==> steps[0].t < bound;
      }
      assert i != 0;
      StuckKeyEvictedInTrace(q, key, stamp, bound, steps[1..], i - 1);
    }
  }

  /**
   * Stale-key cleanup self-heals a lost key-up while other input goes on:
   * with no further events on a key (mouse events and other keys' events
   * allowed), it is evicted by the first cleanup step later than
   * CleanupInterval after both the last cleanup and the moment the key
   * turns KeyTimeout old.
   */
  lemma StuckKeyEvictedAmidEvents<K>(p: Pumped<K>, key: K, steps: seq<Step<K>>, i: nat)
    requires key in p.obs.pressed && NoEventsOn(steps, key)
    requires i < |steps| && steps[i].Pass?
    requires steps[i].t > Max(p.lastCleanup, p.obs.pressed[key] + KeyTimeout) + CleanupInterval
    ensures key !in Trace(p, steps).obs.pressed
  {
    var stamp := p.obs.pressed[key];
    StuckKeyEvictedInTrace(p, key, stamp, Max(p.lastCleanup, stamp + KeyTimeout), steps, i);
  }

  /** The back end's state: RUNNING, the pump's last_cleanup, PRESSED_KEYS and the globals it updates. */
  class Adapter<K(==)> {
    var running: bool
    var lastCleanup: nat
    const keys: KeyTracker<K>
    const activity: ActivityState

    /** The state that event handling reads and writes, as a value. */
    ghost function Observe(): Observed<K>
      reads this, keys, activity
    {
      Observed(keys.pressed, activity.keyboardCount, activity.mouseCount, activity.lastGenuineActivity)
    }

    constructor(activity: ActivityState)
      ensures this.activity == activity && fresh(keys)
      ensures !running && keys.pressed == map[]
    {
      this.activity := activity;
      keys := new KeyTracker();
      running := false;
      lastCleanup := 0;
    }

    /**
     * The platform start_monitoring: a no-op while RUNNING; otherwise sets
     * RUNNING and clears PRESSED_KEYS before the monitoring thread starts.
     */
    method StartMonitoring()
      modifies this, keys
      ensures running
      ensures keys.pressed == if old(running) then old(keys.pressed) else map[]
      ensures lastCleanup == old(lastCleanup)
    {
      if running {
        return;
      }
      running := true;
      ResetMonitoringState();
    }

    /** The platform stop_monitoring: clears RUNNING, then PRESSED_KEYS. */
    method StopMonitoring()
      modifies this, keys
      ensures !running && keys.pressed == map[]
      ensures lastCleanup == old(lastCleanup)
    {
      running := false;
      ResetMonitoringState();
    }

    /** reset_monitoring_state. */
    method ResetMonitoringState()
      modifies keys
      ensures keys.pressed == map[]
    {
      keys.Clear();
    }

    /** The monitoring thread, hooks installed, enters its loop at monotonic time `now`. */
    method BeginPump(now: nat)
      modifies this`lastCleanup
      ensures lastCleanup == now
    {
      lastCleanup := now;
    }

    /** The cleanup step at the end of one pump-loop iteration, at monotonic time `now`. */
    method PumpTick(now: nat)
      modifies this`lastCleanup, keys
      ensures CleanupDue(old(lastCleanup), now) ==> keys.pressed == Retain(old(keys.pressed), now) && lastCleanup == now
      ensures !CleanupDue(old(lastCleanup), now) ==> keys.pressed == old(keys.pressed) && lastCleanup == old(lastCleanup)
      ensures (keys.pressed, lastCleanup) == Tick(old(keys.pressed), old(lastCleanup), now)
    {
      if Age(now, lastCleanup) > CleanupInterval {
        keys.CleanupStaleKeys(now);
        lastCleanup := now;
      }
    }

    /**
     * The pump loop while RUNNING stays set, with no key events in between:
     * one PumpTick per iteration, at the given monotonic times.
     */
    method PumpLoop(times: seq<nat>)
      modifies this`lastCleanup, keys
      ensures (keys.pressed, lastCleanup) == PumpPasses(old(keys.pressed), old(lastCleanup), times)
    {
      var i := 0;
      while i < |times|
        invariant i <= |times|
        invariant PumpPasses(keys.pressed, lastCleanup, times[i..])
                  == PumpPasses(old(keys.pressed), old(lastCleanup), times)
      {
        assert times[i..][0] == times[i] && times[i..][1..] == times[i + 1..];
        PumpTick(times[i]);
        i := i + 1;
      }
    }

    /**
     * A decoded key event: classify it, bump the keyboard counter if it is
     * countable, refresh the idle clock if it is genuine.
     */
    method HandleKey(key: K, isDown: bool, mono: nat, epoch: nat)
      modifies keys, activity
      ensures Observe() == OnKey(old(Observe()), key, isDown, mono, epoch)
      ensures activity.monitoring == old(activity.monitoring)
    {
      var incrementCounter, isGenuine := keys.ProcessKeyboardEvent(key, isDown, mono);
      if incrementCounter {
        activity.IncrementKeyboard();
      }
      if isGenuine {
        activity.UpdateGenuineActivityTime(true, epoch);
      }
    }

    /** A mouse event: bump the mouse counter and refresh the idle clock. */
    method HandleMouse(epoch: nat)
      modifies activity
      ensures Observe() == OnMouse(old(Observe()), epoch)
      ensures activity.monitoring == old(activity.monitoring)
    {
      activity.IncrementMouse();
      activity.UpdateGenuineActivityTime(true, epoch);
    }
  }
}
