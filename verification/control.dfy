/**
 * The control surface the host calls: start_monitoring, stop_monitoring,
 * the getters, reset_counters and save_activity_log. An Engine holds the
 * globals (an ActivityState) and the back end that was compiled in (an
 * Adapter over that platform's key type).
 *
 * Clock readings are parameters: `now` is wall-clock epoch seconds.
 */
module Control {
  import opened Wrappers
  import opened Activity
  import opened Adapter
  import opened LogFormat
  import Utf8

  /**
   * What the file system does when the log is written: whether opening
   * with create and append succeeds, and whether each write_all succeeds.
   */
  datatype IoOutcome = IoOutcome(openOk: bool, headerOk: bool, recordOk: bool)

  /** The result of an attempt to append to the log, and the file afterwards. */
  datatype Appended = Appended(ok: bool, file: Option<seq<string>>)

  /** The lines of a log file; a missing file has none. */
  function LinesOf(file: Option<seq<string>>): seq<string>
  {
    if file.Some? then file.value else []
  }

  /**
   * The file-system half of save_activity_log. Opening creates a missing
   * file; a new file gets the header first; then the record line. Lines
   * already in the file are never changed, and a failed write adds nothing
   * after the point of failure.
   */
  function AppendRecord(file: Option<seq<string>>, line: string, io: IoOutcome): (r: Appended)
    ensures r.ok <==> io.openOk && (file.Some? || io.headerOk) && io.recordOk
    ensures !io.openOk ==> r.file == file
    ensures io.openOk ==> r.file.Some? && |LinesOf(file)| <= |r.file.value|
                          && r.file.value[..|LinesOf(file)|] == LinesOf(file)
    ensures r.ok ==> r.file.value == LinesOf(file) + (if file.None? then [Header] else []) + [line]
    ensures io.openOk && !r.ok ==>
              r.file.value == LinesOf(file) + (if file.None? && io.headerOk then [Header] else [])
  {
    if !io.openOk then Appended(false, file)
    else if file.None? && !io.headerOk then Appended(false, Some([]))
    else
      var withHeader := if file.None? then [Header] else file.value;
      if !io.recordOk then Appended(false, Some(withHeader))
      else Appended(true, Some(withHeader + [line]))
  }

  /**
   * On success the file's bytes are its old bytes, then the header line
   * only if the file is new, then the record line, each ending in a newline.
   */
  lemma SaveAppendsText(file: Option<seq<string>>, line: string, io: IoOutcome)
    requires AppendRecord(file, line, io).ok
    ensures Text(AppendRecord(file, line, io).file.value)
            == Text(LinesOf(file)) + (if file.None? then Header + "\n" else "") + line + "\n"
  {
    var old_ := LinesOf(file);
    var added := (if file.None? then [Header] else []) + [line];
    assert AppendRecord(file, line, io).file.value == old_ + added;
    TextAppend(old_, added);
    assert Text([line]) == line + "\n";
    if file.None? {
      assert added == [Header, line] && added[1..] == [line];
      assert Text(added) == Header + "\n" + (line + "\n");
    } else {
      assert added == [line];
    }
  }

  /** Two saves to a fresh path that both succeed: header, first record, second record. */
  lemma FreshLogTwoRecords(first: string, second: string)
    ensures var ok := IoOutcome(true, true, true);
            var one := AppendRecord(None, first, ok);
            var two := AppendRecord(one.file, second, ok);
            one.ok && two.ok && two.file == Some([Header, first, second])
  {
    var ok := IoOutcome(true, true, true);
    assert [Header] + [first] == [Header, first];
    assert AppendRecord(None, first, ok).file == Some([Header, first]);
    assert [Header, first] + [second] == [Header, first, second];
  }

  class Engine<K(==)> {
    const state: ActivityState
    const platform: Adapter<K>

    /** The back end updates these globals, and its RUNNING flag follows MONITORING. */
    ghost predicate Valid()
      reads this, platform, state
    {
      platform.activity == state && platform.running == state.monitoring
    }

    constructor()
      ensures Valid() && fresh(state) && fresh(platform) && fresh(platform.keys)
      ensures !state.monitoring && state.keyboardCount == 0 && state.mouseCount == 0
      ensures state.lastGenuineActivity == 0 && platform.keys.pressed == map[]
    {
      var globals := new ActivityState();
      state := globals;
      platform := new Adapter(globals);
    }

    /**
     * start_monitoring: false and no change while monitoring; otherwise
     * sets the flag, resets the counters (the idle clock to `now`) and the
     * key map, starts the back end, and returns true.
     */
    method StartMonitoring(now: nat) returns (started: bool)
      requires Valid()
      modifies state, platform, platform.keys
      ensures Valid()
      ensures started == !old(state.monitoring)
      ensures !started ==> unchanged(state, platform, platform.keys)
      ensures started ==> state.monitoring && state.keyboardCount == 0 && state.mouseCount == 0
                          && state.lastGenuineActivity == now && platform.keys.pressed == map[]
      ensures platform.lastCleanup == old(platform.lastCleanup)
    {
      if state.monitoring {
        return false;
      }
      state.monitoring := true;
      ResetCounters(now);
      platform.StartMonitoring();
      return true;
    }

    /**
     * stop_monitoring: false and no change when not monitoring; otherwise
     * clears the flag, stops the back end (which clears the key map) and
     * returns true. The counters and the idle clock are kept.
     */
    method StopMonitoring() returns (stopped: bool)
      requires Valid()
      modifies state, platform, platform.keys
      ensures Valid()
      ensures stopped == old(state.monitoring)
      ensures !stopped ==> unchanged(state, platform, platform.keys)
      ensures stopped ==> !state.monitoring && platform.keys.pressed == map[]
      ensures state.keyboardCount == old(state.keyboardCount) && state.mouseCount == old(state.mouseCount)
      ensures state.lastGenuineActivity == old(state.lastGenuineActivity)
      ensures platform.lastCleanup == old(platform.lastCleanup)
    {
      if !state.monitoring {
        return false;
      }
      state.monitoring := false;
      platform.StopMonitoring();
      return true;
    }

    /** get_keyboard_count. */
    method GetKeyboardCount() returns (count: U64)
      ensures count == state.keyboardCount
    {
      count := state.keyboardCount;
    }

    /** get_mouse_count. */
    method GetMouseCount() returns (count: U64)
      ensures count == state.mouseCount
    {
      count := state.mouseCount;
    }

    /** get_idle_time, with the wall clock reading `now`. */
    method GetIdleTime(now: nat) returns (idle: nat)
      ensures idle == IdleTime(state.lastGenuineActivity, now)
    {
      var last := state.lastGenuineActivity;
      if last == 0 || now < last {
        return 0;
      }
      return now - last;
    }

    /**
     * reset_counters: both counters to zero, the idle clock to `now` (so
     * the idle time at `now` is 0, not the never-active sentinel case), and
     * the key map cleared; the monitoring flag is untouched. start_monitoring
     * calls it between setting MONITORING and starting the back end, where
     * Valid() does not hold, so it keeps Valid() rather than requiring it.
     */
    method ResetCounters(now: nat)
      modifies state, platform.keys
      ensures Valid() == old(Valid())
      ensures state.keyboardCount == 0 && state.mouseCount == 0 && state.lastGenuineActivity == now
      ensures IdleTime(state.lastGenuineActivity, now) == 0
      ensures platform.keys.pressed == map[]
      ensures state.monitoring == old(state.monitoring)
    {
      state.ResetCounters(now);
      platform.ResetMonitoringState();
    }

    /**
     * save_activity_log. The path is None for a null pointer; `file` is the
     * log at that path (None if it does not exist) and `io` what the file
     * system does. A null or non-UTF-8 path changes nothing. Otherwise the
     * snapshot of the counters and idle time is appended as in
     * AppendRecord, and only a fully successful write resets the counters.
     */
    method SaveActivityLog(path: Option<seq<Byte>>, file: Option<seq<string>>, io: IoOutcome, now: nat)
      returns (ok: bool, after: Option<seq<string>>)
      requires Valid()
      modifies state, platform.keys
      ensures Valid()
      ensures path.None? || !Utf8.IsValid(path.value) ==> !ok && after == file
      ensures path.Some? && Utf8.IsValid(path.value) ==>
                var snapshot := LogRecord(now, old(state.keyboardCount), old(state.mouseCount),
                                          IdleTime(old(state.lastGenuineActivity), now));
                Appended(ok, after) == AppendRecord(file, RecordLine(snapshot), io)
      ensures ok ==> state.keyboardCount == 0 && state.mouseCount == 0
                     && state.lastGenuineActivity == now && platform.keys.pressed == map[]
      ensures !ok ==> unchanged(state, platform.keys)
      ensures state.monitoring == old(state.monitoring)
    {
      if path.None? {
        return false, file;
      }
      if !Utf8.IsValid(path.value) {
        return false, file;
      }
      var keyboardCount := state.keyboardCount;
      var mouseCount := state.mouseCount;
      var idleTime := GetIdleTime(now);
      var logEntry := RecordLine(LogRecord(now, keyboardCount, mouseCount, idleTime));
      var fileExists := file.Some?;
      if !io.openOk {
        return false, file;
      }
      var lines := if fileExists then file.value else [];
      if !fileExists {
        if !io.headerOk {
          return false, Some(lines);
        }
        lines := lines + [Header];
      }
      if !io.recordOk {
        return false, Some(lines);
      }
      lines := lines + [logEntry];
      ResetCounters(now);
      return true, Some(lines);
    }
  }

  /** Calling start_monitoring twice in a row returns true, then false. */
  method StartTwice<K(==)>(e: Engine<K>, now: nat) returns (first: bool, second: bool)
    requires e.Valid() && !e.state.monitoring
    modifies e.state, e.platform, e.platform.keys
    ensures first && !second && e.Valid() && e.state.monitoring
  {
    first := e.StartMonitoring(now);
    second := e.StartMonitoring(now);
  }

  /** Calling stop_monitoring twice in a row returns true, then false. */
  method StopTwice<K(==)>(e: Engine<K>) returns (first: bool, second: bool)
    requires e.Valid() && e.state.monitoring
    modifies e.state, e.platform, e.platform.keys
    ensures first && !second && e.Valid() && !e.state.monitoring
  {
    first := e.StopMonitoring();
    second := e.StopMonitoring();
  }

  /**
   * Two successful saves with no activity in between: the second record
   * has both counters at zero and the idle time since the first save.
   */
  method SaveTwice<K(==)>(e: Engine<K>, path: seq<Byte>, file: Option<seq<string>>, now1: nat, now2: nat)
    returns (first: bool, second: bool, after: Option<seq<string>>)
    requires e.Valid() && Utf8.IsValid(path)
    modifies e.state, e.platform.keys
    ensures first && second && e.Valid()
    ensures after == Some(LinesOf(file) + (if file.None? then [Header] else [])
                          + [RecordLine(LogRecord(now1, old(e.state.keyboardCount), old(e.state.mouseCount),
                                                  IdleTime(old(e.state.lastGenuineActivity), now1))),
                             RecordLine(LogRecord(now2, 0, 0, IdleTime(now1, now2)))])
  {
    var io := IoOutcome(true, true, true);
    var middle;
    ghost var front := LinesOf(file) + (if file.None? then [Header] else []);
    ghost var line1 := RecordLine(LogRecord(now1, e.state.keyboardCount, e.state.mouseCount,
                                            IdleTime(e.state.lastGenuineActivity, now1)));
    first, middle := e.SaveActivityLog(Some(path), file, io, now1);
    assert middle == Some(front + [line1]);
    second, after := e.SaveActivityLog(Some(path), middle, io, now2);
    assert front + [line1] + [RecordLine(LogRecord(now2, 0, 0, IdleTime(now1, now2)))]
        == front + [line1, RecordLine(LogRecord(now2, 0, 0, IdleTime(now1, now2)))];
  }
}
