/**
 * The key-activity tracker shared by the macOS and Windows back ends.
 *
 * Both platforms keep a map PRESSED_KEYS from a key code to the monotonic
 * time of its last counted key-down, and classify every raw key event as
 * (countable, genuine). The two copies differ only in the key type (a
 * 16-bit CoreGraphics key code, a 32-bit Windows virtual-key code), so the
 * tracker is written once over a generic key type K.
 *
 * Time on this clock is a reading of the monotonic clock in milliseconds.
 */
module KeyTracking {

  /** KEY_TIMEOUT: two seconds. */
  const KeyTimeout: nat := 2000

  /**
   * `now.duration_since(since)` on the monotonic clock: the elapsed time,
   * or zero when `since` is not earlier than `now`.
   */
  function Age(now: nat, since: nat): (d: nat)
    ensures since <= now ==> since + d == now
    ensures now <= since ==> d == 0
  {
    if since <= now then now - since else 0
  }

  /**
   * A key whose last counted key-down is at most KeyTimeout old: a further
   * key-down on it is an auto-repeat, not a new press.
   */
  predicate Held<K>(pressed: map<K, nat>, key: K, now: nat)
  {
    key in pressed && Age(now, pressed[key]) <= KeyTimeout
  }

  /** The verdict on one raw key event, with the map it leaves behind. */
  datatype Classified<K> = Classified(countable: bool, genuine: bool, pressed: map<K, nat>)

  /**
   * process_keyboard_event: a key-down on a key that is not held is a new
   * press (counted, genuine, and stamped with `now`); any other key-down is
   * suppressed and leaves the map alone; a key-up forgets the key and is
   * never counted.
   */
  function Classify<K(==)>(pressed: map<K, nat>, key: K, isDown: bool, now: nat): (r: Classified<K>)
    ensures r.countable == r.genuine
    ensures r.countable <==> isDown && !Held(pressed, key, now)
    ensures r.countable ==> r.pressed == pressed[key := now]
    ensures isDown && !r.countable ==> r.pressed == pressed
    ensures !isDown ==> key !in r.pressed && r.pressed == pressed - {key}
    ensures !isDown && key !in pressed ==> r.pressed == pressed
  {
    if isDown then
      if key !in pressed || Age(now, pressed[key]) > KeyTimeout then
        Classified(true, true, pressed[key := now])
      else
        Classified(false, false, pressed)
    else if key in pressed then
      Classified(false, false, pressed - {key})
    else
      Classified(false, false, pressed)
  }

  /**
   * cleanup_stale_keys: `retain` the entries younger than KeyTimeout; an
   * entry exactly KeyTimeout old is evicted.
   */
  function Retain<K(==)>(pressed: map<K, nat>, now: nat): (r: map<K, nat>)
    ensures r.Keys <= pressed.Keys
    ensures forall k :: k in r ==> r[k] == pressed[k] && Age(now, r[k]) < KeyTimeout
    ensures forall k :: k in pressed && k !in r ==> Age(now, pressed[k]) >= KeyTimeout
  {
    map k | k in pressed && Age(now, pressed[k]) < KeyTimeout :: pressed[k]
  }

  /**
   * The two timeout tests disagree at exactly one age: a key-down at the
   * moment a cleanup runs is counted after the cleanup iff it would have
   * been counted before it, or the key's age is exactly KeyTimeout (the
   * key-down test suppresses that age, the cleanup test evicts it).
   */
  lemma CleanupChangesVerdictOnlyAtBoundary<K>(pressed: map<K, nat>, key: K, now: nat)
    ensures Classify(Retain(pressed, now), key, true, now).countable
        <==> Classify(pressed, key, true, now).countable
             || (key in pressed && Age(now, pressed[key]) == KeyTimeout)
  {
  }

  /**
   * A stuck key (its key-up never arrived) whose age has reached KeyTimeout
   * is evicted by a cleanup, and the next key-down on it, whenever it comes,
   * is a new genuine press.
   */
  lemma EvictedKeyCountsAgain<K>(pressed: map<K, nat>, key: K, cleanupAt: nat, later: nat)
    requires key in pressed && Age(cleanupAt, pressed[key]) >= KeyTimeout
    ensures key !in Retain(pressed, cleanupAt)
    ensures Classify(Retain(pressed, cleanupAt), key, true, later) ==
            Classified(true, true, Retain(pressed, cleanupAt)[key := later])
  {
  }

  /** A key-down, its key-up and a second key-down on one key: two new presses. */
  lemma PressReleasePressCountsTwice<K>(pressed: map<K, nat>, key: K, t1: nat, t2: nat, t3: nat)
    requires key !in pressed
    ensures var first := Classify(pressed, key, true, t1);
            var release := Classify(first.pressed, key, false, t2);
            var second := Classify(release.pressed, key, true, t3);
            first.countable && !release.countable && second.countable
            && second.pressed == pressed[key := t3]
  {
    var first := Classify(pressed, key, true, t1);
    var release := Classify(first.pressed, key, false, t2);
    assert release.pressed == pressed;
  }

  /** PRESSED_KEYS together with the operations that change it in place. */
  class KeyTracker<K(==)> {
    var pressed: map<K, nat>

    constructor()
      ensures pressed == map[]
    {
      pressed := map[];
    }

    /** process_keyboard_event, with the monotonic clock reading `now`. */
    method ProcessKeyboardEvent(key: K, isDown: bool, now: nat) returns (countable: bool, genuine: bool)
      modifies this
      ensures var c := Classify(old(pressed), key, isDown, now);
              countable == c.countable && genuine == c.genuine && pressed == c.pressed
    {
      if isDown {
        if key !in pressed || Age(now, pressed[key]) > KeyTimeout {
          pressed := pressed[key := now];
          return true, true;
        }
      } else {
        if key in pressed {
          pressed := pressed - {key};
          return false, false;
        }
      }
      return false, false;
    }

    /** cleanup_stale_keys, with the monotonic clock reading `now`. */
    method CleanupStaleKeys(now: nat)
      modifies this
      ensures pressed == Retain(old(pressed), now)
    {
      pressed := map k | k in pressed && Age(now, pressed[k]) < KeyTimeout :: pressed[k];
    }

    /** reset_monitoring_state: `clear` the map. */
    method Clear()
      modifies this
      ensures pressed == map[]
    {
      pressed := map[];
    }
  }
}
