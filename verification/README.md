# activity-monitor, modelled in Dafny

activity-monitor is a native library that a host application polls for user
activity. It counts keyboard and mouse events and keeps an idle clock. It
installs a low-level input hook: a CoreGraphics event tap on macOS, or
`WH_KEYBOARD_LL`/`WH_MOUSE_LL` hooks on Windows.

Every raw key event goes through a key-activity tracker. The tracker keeps
`PRESSED_KEYS`, a map from a key code to the monotonic time of the key's
last counted key-down. A key-down counts as a *new press* (countable and
genuine) only when the key is absent or its entry is more than two seconds
old. This suppresses auto-repeat. A key-up forgets the key and is never
counted. A periodic cleanup evicts stuck keys.

Every mouse event is counted and genuine. A genuine event sets the idle
clock, `LAST_GENUINE_ACTIVITY`, to the wall-clock time in epoch seconds.

The control surface has the following entry points:
- start and stop, each guarded by the `MONITORING` flag;
- the two counter getters and the idle time;
- a counter reset, which also resets the idle clock;
- `save_activity_log`. It appends a CSV record, writing a header first for a
  new file, and resets the counters only when the write succeeded.

The model is split into these files:

- `tracker.dfy` (module `KeyTracking`) covers the tracker shared by both
  platforms, written once over a generic key type:
  - `Classify` and `Retain` are the pure semantics of classifying an event
    and cleaning up;
  - class `KeyTracker` keeps the map as a field that its methods update.
- `activity.dfy` (module `Activity`) covers the four globals as class
  `ActivityState`, the wrapping u64 increment and `IdleTime`.
- `adapter.dfy` (module `Adapter`) covers what the two back ends share:
  - the `RUNNING` guard;
  - decoded key and mouse handling (`OnKey`, `OnMouse`), and runs of events;
  - the pump loop's cleanup step (`Tick`, `PumpPasses`), and traces that
    interleave events with cleanup steps (`Step`, `Trace`);
  - class `Adapter`.
- `macos.dfy` and `windows.dfy` cover event decoding and dispatch:
  - `event_callback` on macOS;
  - `keyboard_proc` and `mouse_proc` on Windows.
- `logformat.dfy` covers the CSV record and header, decimal formatting and
  parsing back.
- `utf8.dfy` covers the UTF-8 check applied to the log path.
- `control.dfy` (module `Control`) covers the `lib.rs` entry points as class
  `Engine` over an `ActivityState` and an `Adapter`, and the file-system side
  of saving (`AppendRecord`).

Clocks are parameters:
- `mono` is the monotonic `Instant`, in milliseconds, so `KEY_TIMEOUT` is
  2000 and the cleanup interval is 10000;
- `now`/`epoch` is `SystemTime` in epoch seconds;
- `duration_since` is saturating subtraction (`KeyTracking.Age`).

The file system is a parameter too:
- the log file is its list of lines, or `None` when the path does not exist;
- an `IoOutcome` says whether the open, the header write and the record write
  succeed.

The two timeout tests in the tracker meet at one age. The key-down test
counts a key only when its age is `> KEY_TIMEOUT` (src/macos.rs:37,
src/windows.rs:38), so it suppresses a key whose age is `<= KEY_TIMEOUT`.
`retain` keeps only entries whose age is `< KEY_TIMEOUT` (src/macos.rs:72,
src/windows.rs:77). An entry exactly 2000 ms old is therefore suppressed on
key-down but evicted by cleanup. `CleanupChangesVerdictOnlyAtBoundary`
states this.

## Model

| member | source | states |
|---|---|---|
| KeyTracking.Age | src/macos.rs:37 | `duration_since` saturates: the elapsed time when `since <= now`, otherwise 0 |
| KeyTracking.Classify | src/macos.rs:26-63 | A key-down is countable iff the key is not `Held`. `Held` is the negation of the key-down test at src/macos.rs:36-37: the key is present and its entry is at most KEY_TIMEOUT old. Countable and genuine always agree. A new press stamps the key with `now`. A suppressed key-down leaves the map unchanged. A key-up removes the key and is never counted. A key-up on an absent key changes nothing |
| KeyTracking.Retain | src/macos.rs:66-73 | Cleanup keeps only existing entries, unchanged, each strictly younger than KEY_TIMEOUT; every evicted entry is at least KEY_TIMEOUT old |
| KeyTracking.CleanupChangesVerdictOnlyAtBoundary | src/macos.rs:36-72 | A cleanup changes the verdict on a simultaneous key-down only when the key's age is exactly KEY_TIMEOUT (`>` in the key-down test against `<` in retain) |
| KeyTracking.EvictedKeyCountsAgain | src/windows.rs:35-77 | A stuck key at least KEY_TIMEOUT old is evicted by cleanup, and its next key-down is a new genuine press |
| KeyTracking.PressReleasePressCountsTwice | src/windows.rs:35-63 | Press, release, press on one key: both presses count, the release does not, and the map ends with the key stamped at the second press |
| KeyTracking.KeyTracker.constructor | src/macos.rs:14 | PRESSED_KEYS starts empty |
| KeyTracking.KeyTracker.ProcessKeyboardEvent | src/windows.rs:27-68 | Returns Classify's verdict and leaves Classify's map in the field |
| KeyTracking.KeyTracker.CleanupStaleKeys | src/windows.rs:71-78 | The field becomes Retain of its old value |
| KeyTracking.KeyTracker.Clear | src/macos.rs:228-231 | `reset_monitoring_state` empties the map |
| Activity.WrappingInc | src/lib.rs:159-165 | `fetch_add(1)` on u64: `(x + 1) mod 2^64`, and never equal to `x` |
| Activity.IdleTime | src/lib.rs:70-82 | Idle time is 0 exactly when no activity was recorded (0 sentinel) or the clock has not passed `last`; otherwise `last + idle == now` |
| Activity.IdleTimeZeroAtLastActivity | src/lib.rs:76-81 | Right after genuine activity at `now`, the idle time at `now` is 0 |
| Activity.IdleTimeZeroBeforeAnyActivity | src/lib.rs:76-78 | Before any genuine activity, the idle time is 0 at every clock reading |
| Activity.ActivityState.constructor | src/lib.rs:14-17 | The globals start false and zero |
| Activity.ActivityState.IncrementKeyboard | src/lib.rs:159-161 | The keyboard counter wraps-increments; nothing else changes |
| Activity.ActivityState.IncrementMouse | src/lib.rs:163-165 | The mouse counter wraps-increments; nothing else changes |
| Activity.ActivityState.UpdateGenuineActivityTime | src/lib.rs:168-176 | Genuine activity sets the idle clock to `now`; otherwise nothing changes |
| Activity.ActivityState.ResetCounters | src/lib.rs:85-93 | Both counters become 0 and the idle clock `now`; MONITORING is untouched |
| Adapter.OnKey | src/macos.rs:125-143 | The keyboard counter moves, by exactly one modulo 2^64, iff the event is a key-down on a key not held. Exactly then the idle clock becomes `epoch`. The map is the tracker's. The mouse counter is untouched |
| Adapter.OnMouse | src/macos.rs:146-150 | Every mouse event increments the mouse counter modulo 2^64 and sets the idle clock to `epoch` (idle time 0 then); the keyboard side is untouched |
| Adapter.MouseRunCountsEach | src/windows.rs:206-211 | n mouse events raise the mouse counter by n modulo 2^64, leave the keyboard counter and map alone, and leave the idle clock at the last event's time |
| Adapter.HeldKeyRepeatsIgnored | src/macos.rs:34-43 | In a run of key events with no cleanup step between them, key-downs on a held key within KEY_TIMEOUT of its stamp change nothing at all |
| Adapter.AutoRepeatCountsOnce | src/macos.rs:130-143 | In a run of key-downs with no cleanup step between them, on an unpressed key and within KEY_TIMEOUT of the first, only the first is counted and only the first sets the idle clock |
| Adapter.RepeatsIgnoredAcrossPasses | src/macos.rs:184-193 | In a trace that interleaves key-downs on a held key with cleanup steps (`Trace`, a fold of `Perform`), the counters, the idle clock and the key's stamp stay as long as each key-down is within KEY_TIMEOUT of the stamp and each cleanup step strictly before it. The cleanup steps may still evict other keys and move `last_cleanup` |
| Adapter.AutoRepeatCountsOnceAcrossPasses | src/windows.rs:115-130 | A key-down on an unpressed key, followed by such a trace, counts exactly once and sets the idle clock once. The key keeps the first key-down's stamp |
| Adapter.CleanupAtTimeoutRecountsRepeat | src/macos.rs:36-72 | The exception: a cleanup step that is due exactly when the key turns KEY_TIMEOUT old evicts it. A key-down at that same moment then counts again, although at that age the key is still `Held` |
| Adapter.EvictedStaysEvicted | src/macos.rs:188-193 | Pump passes never add a key to the map |
| Adapter.StuckKeyEvictedAmidEvents | src/macos.rs:184-193 | In a trace of events and cleanup steps with no key event on a key (mouse events and other keys' events allowed), the key is gone after the first cleanup step later than CleanupInterval past both the last cleanup and the moment the key turned KEY_TIMEOUT old |
| Adapter.StuckKeyEvictedWithinBound | src/macos.rs:181-193 | Over cleanup steps alone (`PumpPasses`), with no events between them, a key is gone after the first pump pass later than CleanupInterval past both the last cleanup and the moment the key turned KEY_TIMEOUT old |
| Adapter.Adapter.constructor | src/macos.rs:9-14 | RUNNING starts false and the map empty, over the given globals |
| Adapter.Adapter.StartMonitoring | src/macos.rs:156-164 | No change while RUNNING; otherwise RUNNING is set and the map cleared |
| Adapter.Adapter.StopMonitoring | src/windows.rs:147-164 | RUNNING is cleared, then the map |
| Adapter.Adapter.ResetMonitoringState | src/windows.rs:167-170 | The map is emptied |
| Adapter.Adapter.BeginPump | src/windows.rs:112-113 | The loop's `last_cleanup` starts at the thread's first clock reading |
| Adapter.Adapter.PumpTick | src/windows.rs:125-130 | `CleanupDue` is the test at src/windows.rs:127 and src/macos.rs:190, and `Tick` is the step at src/windows.rs:126-130 and src/macos.rs:189-193. When more than 10 s have passed since the last cleanup, the map becomes Retain of it and `last_cleanup` becomes `now`; otherwise neither changes |
| Adapter.Adapter.PumpLoop | src/macos.rs:184-197 | The loop's cleanup steps leave the map and `last_cleanup` as `PumpPasses` says. `PumpPasses` is the fold of `Tick` over the iteration times |
| Adapter.Adapter.HandleKey | src/windows.rs:186-196 | The counters, idle clock and map change exactly as OnKey says |
| Adapter.Adapter.HandleMouse | src/windows.rs:208-210 | The counters, idle clock and map change exactly as OnMouse says |
| MacOS.AsU32 | src/macos.rs:122 | `event_type as u32` is the 32-bit two's-complement image of the c_int |
| MacOS.RouteOf | src/macos.rs:122-150 | Event types 10 and 11 (and no others, negative ones included) are key events, with 10 the key-down; exactly types 1, 2, 3, 4, 5 and 22 are mouse events; the rest are ignored |
| MacOS.EventCallback | src/macos.rs:116-154 | A key route has OnKey's effect, a mouse route OnMouse's, and anything else no effect; MONITORING is untouched |
| Windows.IsKeyDown | src/windows.rs:182-183 | Exactly WM_KEYDOWN and WM_SYSKEYDOWN are key-downs; every other wParam, the key-up messages included, is a key-up |
| Windows.KeyboardProc | src/windows.rs:172-204 | Under HC_ACTION with a hook structure, the event has OnKey's effect; otherwise nothing changes |
| Windows.MouseProc | src/windows.rs:206-216 | Under HC_ACTION, the event has OnMouse's effect; otherwise nothing changes |
| LogFormat.Decimal | src/lib.rs:124-127 | `{}` of an integer: nonempty, all decimal digits, no leading zero; 0 is written "0" |
| LogFormat.DecimalRoundTrip | src/lib.rs:124-127 | Reading the decimal digits back gives the number |
| LogFormat.RecordRoundTrip | src/lib.rs:124-127 | `RecordLine` is the `format!` of the record without its newline. A record line splits into four decimal fields that parse back to the same record |
| LogFormat.HeaderNamesFields | src/lib.rs:140 | The header splits into the four field names in record order and does not parse as a record |
| LogFormat.TextAppend | src/lib.rs:132-135 | Append mode: the bytes of old lines plus new lines are the old bytes followed by the new |
| Control.AppendRecord | src/lib.rs:129-155 | It succeeds iff the open, the header write (only for a new file) and the record write all succeed. A failed open changes nothing. Otherwise the old lines stay as a prefix. On success the header (new file only) and then the record follow. On a write failure only what was written before it follows |
| Control.SaveAppendsText | src/lib.rs:137-152 | On success the file's bytes are the old bytes, then `header\n` for a new file, then `record\n` |
| Control.FreshLogTwoRecords | src/lib.rs:137-152 | Two successful saves to a fresh path leave header, first record, second record |
| Control.Engine.constructor | src/lib.rs:14-17 | Globals zero, not monitoring, empty map, back end bound to these globals |
| Control.Engine.StartMonitoring | src/lib.rs:21-39 | Returns false and changes nothing while monitoring. Otherwise it sets MONITORING, zeroes the counters, sets the idle clock to `now`, clears the map, starts the back end and returns true |
| Control.Engine.StopMonitoring | src/lib.rs:42-57 | Returns false and changes nothing when not monitoring; otherwise clears MONITORING and RUNNING and the map, keeps the counters and idle clock, returns true |
| Control.Engine.GetKeyboardCount | src/lib.rs:60-62 | Returns KEYBOARD_COUNT |
| Control.Engine.GetMouseCount | src/lib.rs:65-67 | Returns MOUSE_COUNT |
| Control.Engine.GetIdleTime | src/lib.rs:70-82 | Returns IdleTime of the stored last activity at `now` |
| Control.Engine.ResetCounters | src/lib.rs:85-101 | Counters 0, idle clock `now` (idle time 0), map empty, MONITORING kept; the Engine invariant holds afterwards iff it held before |
| Control.Engine.SaveActivityLog | src/lib.rs:104-156 | A null or non-UTF-8 path returns false and changes nothing. Otherwise the snapshot (now, counters, idle time) is appended as AppendRecord says. Only a fully successful write resets the counters and idle clock |
| Control.StartTwice | src/lib.rs:21-39 | start_monitoring twice returns true then false |
| Control.StopTwice | src/lib.rs:42-57 | stop_monitoring twice returns true then false |
| Control.SaveTwice | src/lib.rs:145-149 | Two successful saves in a row: the second record has zero counts and the idle time since the first save |
| Utf8.EncodedStringIsValid | src/lib.rs:110-113 | `IsValid` is the `std::str::from_utf8` check: sequences well formed per Table 3-7 of the Unicode Standard. It accepts the encoding of every string |
| Utf8.RejectsMalformed | src/lib.rs:110-113 | It rejects a lone continuation byte, an overlong NUL and an encoded surrogate |

## Left out

- Hook install, enable and uninstall are not modelled: `InitializeEventTap`, the run-loop calls, `SetWindowsHookExW`, `UnhookWindowsHookEx`, and the `EVENT_TAP_REF`/`KEYBOARD_HOOK`/`MOUSE_HOOK` handles. They are foreign calls with no logic of their own here. `macos_shim.c` and `build.rs` are not part of this model.
- The failure paths of hook installation are not modelled. On macOS a null tap makes the thread exit silently with RUNNING still set. On Windows `.expect` panics the thread. Both are outside a sequential model.
- On Windows, when `GetMessageW` returns false the loop breaks with RUNNING still set. Message retrieval is not modelled.
- Thread spawning, the sleeps, the native event pump and its timeouts are not modelled. `BeginPump` stands for the thread reaching its loop. `PumpLoop` runs only the cleanup step of each iteration, at given times, and event handling (`HandleKey`, `HandleMouse`) is a separate step.
- Concurrency is left out. Atomics, the `PRESSED_KEYS` mutex and any interleaving of the hook thread with the polling thread are not modelled; every operation is one atomic step. `Control.Engine.Valid` is kept under that single-threaded reading.
- The callback's return value and the hand-off to the next hook are not modelled: `event_callback` returns the event and the hooks call `CallNextHookEx`.
- `GetKeyCodeFromEvent` and the `KBDLLHOOKSTRUCT` read are not modelled. The key code arrives as a parameter, and a null hook structure is `None`.
- On key-up, `time_since_key_down` and `is_genuine` (src/windows.rs:48-59) are computed and never used, so they are not modelled.
- The clocks are not modelled. `Instant` is whole milliseconds and `SystemTime` whole epoch seconds, both passed in; an epoch before 1970, which the source maps to 0, is just the reading 0.
- Adapter.Adapter.PumpTick: one clock reading serves both the due test and the retain. The source's `cleanup_stale_keys` reads the clock again (src/macos.rs:68, src/windows.rs:73), slightly later than the loop's reading (src/macos.rs:189, src/windows.rs:126), so it can evict an entry that the model, at the loop's time, still keeps.
- Control.Engine.SaveActivityLog: takes one clock reading. The source reads the wall clock three times: the timestamp, inside `get_idle_time`, and inside `reset_counters`. Those readings can differ by a tick.
- Control.AppendRecord: models a failed `write_all` as writing nothing of that line. A partial write, and real path resolution (`Path::exists` racing with `open`), are not modelled.
- Counter updates between the snapshot and the reset inside `save_activity_log` are lost in the source. The model has no concurrent updates, so it cannot show this.
