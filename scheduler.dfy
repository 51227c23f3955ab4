/**
 * The recording scheduler: from the cached preferences it decides whether
 * to record now, which alarms to set for the next window boundaries, and
 * which command to issue; the alarm receiver turns a fired alarm into a
 * command. Alarms and commands are outputs, recorded in order.
 */
module Scheduler {
  import opened Text
  import opened Preferences

  const ActionStart: string := "com.example.cameralink.recording.START"
  const ActionStop: string := "com.example.cameralink.recording.STOP"

  const MillisPerMinute: int := 60000

  /** A command to the streaming service. */
  datatype Command = StartRecording | StopRecording

  /** What scheduling does to the outside world, in order. */
  datatype Effect = CancelAlarm(action: string) | SetAlarm(atMillis: int, action: string) | Issue(command: Command)

  /** `shouldRecordNow`: local recording on and the minute inside the window. */
  predicate ShouldRecordNow(p: RecordingPreferences, nowMinutes: int) {
    p.localRecordingEnabled && IsWithinActiveWindow(p, nowMinutes)
  }

  /** `minutesUntil`: the minutes from `now` forward to the next `target`, wrapping at midnight. */
  function MinutesUntil(target: int, now: int): int {
    if target >= now then target - now else MinutesPerDay - (now - target)
  }

  /**
   * For minutes of the day, the wait is less than a day, zero exactly when
   * the target is now, and waiting it from `now` lands on the target.
   */
  lemma MinutesUntilSpec(target: int, now: int)
    requires 0 <= target < MinutesPerDay && 0 <= now < MinutesPerDay
    ensures 0 <= MinutesUntil(target, now) < MinutesPerDay
    ensures MinutesUntil(target, now) == 0 <==> target == now
    ensures (now + MinutesUntil(target, now)) % MinutesPerDay == target
  {
  }

  /** ... and it is the least such wait. */
  lemma MinutesUntilLeast(target: int, now: int, d: int)
    requires 0 <= target < MinutesPerDay && 0 <= now < MinutesPerDay
    requires 0 <= d < MinutesUntil(target, now)
    ensures (now + d) % MinutesPerDay != target
  {
  }

  /** Whether the schedule has a real window to set alarms for. */
  predicate Scheduled(p: RecordingPreferences) {
    p.localRecordingEnabled && p.scheduleEnabled && p.startMinutes != p.endMinutes
  }

  /**
   * The effects of `scheduleNextWindow` at `nowMillis`, whose minute of the
   * day is `nowMinutes`. Without an alarm manager nothing happens.
   */
  function NextWindowEffects(p: RecordingPreferences, hasAlarmManager: bool, nowMillis: int, nowMinutes: int): (effects: seq<Effect>)
    ensures !hasAlarmManager ==> effects == []
    ensures hasAlarmManager ==> |effects| >= 3 && effects[..2] == [CancelAlarm(ActionStart), CancelAlarm(ActionStop)]
    ensures hasAlarmManager ==> effects[|effects| - 1].Issue?
  {
    if !hasAlarmManager then []
    else
      var cancels := [CancelAlarm(ActionStart), CancelAlarm(ActionStop)];
      if !Scheduled(p) then
        cancels + [Issue(if p.localRecordingEnabled then StartRecording else StopRecording)]
      else
        var startDelay := MinutesUntil(p.startMinutes, nowMinutes);
        var stopDelay := MinutesUntil(p.endMinutes, nowMinutes);
        var startTime := nowMillis + startDelay * MillisPerMinute;
        var stopTime := nowMillis + stopDelay * MillisPerMinute;
        cancels + [SetAlarm(startTime, ActionStart), SetAlarm(stopTime, ActionStop)]
          + [Issue(if IsWithinActiveWindow(p, nowMinutes) then StartRecording else StopRecording)]
  }

  /** The alarms set among some effects. */
  function Alarms(effects: seq<Effect>): seq<Effect> {
    if effects == [] then []
    else (if effects[0].SetAlarm? then [effects[0]] else []) + Alarms(effects[1..])
  }

  /** The commands issued among some effects. */
  function Commands(effects: seq<Effect>): seq<Command> {
    if effects == [] then []
    else (if effects[0].Issue? then [effects[0].command] else []) + Commands(effects[1..])
  }

  lemma {:induction false} AlarmsAppend(a: seq<Effect>, b: seq<Effect>)
    ensures Alarms(a + b) == Alarms(a) + Alarms(b)
  {
    if a == [] {
      assert a + b == b;
    } else {
      var ab := a + b;
      assert ab[0] == a[0] && ab[1..] == a[1..] + b;
      var h := (if a[0].SetAlarm? then [a[0]] else []);
      AlarmsAppend(a[1..], b);
      var x, y := Alarms(a[1..]), Alarms(b);
      assert Alarms(ab) == h + (x + y);
      assert Alarms(a) == h + x;
      assert h + (x + y) == (h + x) + y;
    }
  }

  lemma {:induction false} CommandsAppend(a: seq<Effect>, b: seq<Effect>)
    ensures Commands(a + b) == Commands(a) + Commands(b)
  {
    if a == [] {
      assert a + b == b;
    } else {
      var ab := a + b;
      assert ab[0] == a[0] && ab[1..] == a[1..] + b;
      var h := (if a[0].Issue? then [a[0].command] else []);
      CommandsAppend(a[1..], b);
      var x, y := Commands(a[1..]), Commands(b);
      assert Commands(ab) == h + (x + y);
      assert Commands(a) == h + x;
      assert h + (x + y) == (h + x) + y;
    }
  }

  lemma FiltersAppend(a: seq<Effect>, b: seq<Effect>)
    ensures Alarms(a + b) == Alarms(a) + Alarms(b)
    ensures Commands(a + b) == Commands(a) + Commands(b)
  {
    AlarmsAppend(a, b);
    CommandsAppend(a, b);
  }

  lemma FiltersOne(x: Effect)
    ensures Alarms([x]) == (if x.SetAlarm? then [x] else [])
    ensures Commands([x]) == (if x.Issue? then [x.command] else [])
  {
    assert [x][1..] == [];
  }

  /** The two shapes of the effects: cancels and a command, or cancels, two alarms and a command. */
  lemma FiltersOfShape(e1: Effect, e2: Effect, e3: Effect, e4: Effect, e5: Effect)
    ensures Alarms([e1, e2, e5]) == Alarms([e1]) + Alarms([e2]) + Alarms([e5])
    ensures Commands([e1, e2, e5]) == Commands([e1]) + Commands([e2]) + Commands([e5])
    ensures Alarms([e1, e2, e3, e4, e5]) == Alarms([e1]) + Alarms([e2]) + Alarms([e3]) + Alarms([e4]) + Alarms([e5])
    ensures Commands([e1, e2, e3, e4, e5]) == Commands([e1]) + Commands([e2]) + Commands([e3]) + Commands([e4]) + Commands([e5])
  {
    assert [e1, e2, e5] == [e1] + [e2] + [e5];
    FiltersAppend([e1], [e2]);
    FiltersAppend([e1] + [e2], [e5]);
    assert [e1, e2, e3, e4, e5] == [e1] + [e2] + [e3] + [e4] + [e5];
    FiltersAppend([e1] + [e2], [e3]);
    FiltersAppend([e1] + [e2] + [e3], [e4]);
    FiltersAppend([e1] + [e2] + [e3] + [e4], [e5]);
  }

  /** The effects of a scheduling run as one of the two shapes. */
  lemma EffectsShape(p: RecordingPreferences, nowMillis: int, nowMinutes: int)
    ensures var e := NextWindowEffects(p, true, nowMillis, nowMinutes);
      && (!Scheduled(p) ==> e == [CancelAlarm(ActionStart), CancelAlarm(ActionStop),
                                  Issue(if p.localRecordingEnabled then StartRecording else StopRecording)])
      && (Scheduled(p) ==> e == [CancelAlarm(ActionStart), CancelAlarm(ActionStop),
            SetAlarm(nowMillis + MinutesUntil(p.startMinutes, nowMinutes) * MillisPerMinute, ActionStart),
            SetAlarm(nowMillis + MinutesUntil(p.endMinutes, nowMinutes) * MillisPerMinute, ActionStop),
            Issue(if IsWithinActiveWindow(p, nowMinutes) then StartRecording else StopRecording)])
  {
  }

  /**
   * Exactly one command is issued, and it is "start" exactly when the
   * recorder should be recording now; so "start" is never issued while
   * local recording is off.
   */
  lemma OneCommand(p: RecordingPreferences, nowMillis: int, nowMinutes: int)
    ensures Commands(NextWindowEffects(p, true, nowMillis, nowMinutes))
         == [if ShouldRecordNow(p, nowMinutes) then StartRecording else StopRecording]
  {
    EffectsShape(p, nowMillis, nowMinutes);
    var e := NextWindowEffects(p, true, nowMillis, nowMinutes);
    if !Scheduled(p) {
      FiltersOfShape(e[0], e[1], e[1], e[1], e[2]);
      FiltersOne(e[0]); FiltersOne(e[1]); FiltersOne(e[2]);
    } else {
      FiltersOfShape(e[0], e[1], e[2], e[3], e[4]);
      FiltersOne(e[0]); FiltersOne(e[1]); FiltersOne(e[2]); FiltersOne(e[3]); FiltersOne(e[4]);
    }
  }

  /** Without a window (recording off, schedule off, or start equal to end) no alarm is set. */
  lemma NoAlarmsUnscheduled(p: RecordingPreferences, nowMillis: int, nowMinutes: int)
    requires !Scheduled(p)
    ensures Alarms(NextWindowEffects(p, true, nowMillis, nowMinutes)) == []
  {
    EffectsShape(p, nowMillis, nowMinutes);
    var e := NextWindowEffects(p, true, nowMillis, nowMinutes);
    FiltersOfShape(e[0], e[1], e[1], e[1], e[2]);
    FiltersOne(e[0]); FiltersOne(e[1]); FiltersOne(e[2]);
  }

  /**
   * With a window, the start alarm is set for the next start minute and the
   * stop alarm for the next end minute, each less than a day ahead, start
   * alarm first.
   */
  lemma AlarmsScheduled(p: RecordingPreferences, nowMillis: int, nowMinutes: int)
    requires Scheduled(p)
    requires IsNormal(p) && 0 <= nowMinutes < MinutesPerDay
    ensures var a := Alarms(NextWindowEffects(p, true, nowMillis, nowMinutes));
      && a == [SetAlarm(nowMillis + MinutesUntil(p.startMinutes, nowMinutes) * MillisPerMinute, ActionStart),
               SetAlarm(nowMillis + MinutesUntil(p.endMinutes, nowMinutes) * MillisPerMinute, ActionStop)]
      && forall i :: 0 <= i < |a| ==> nowMillis <= a[i].atMillis < nowMillis + MinutesPerDay * MillisPerMinute
  {
    EffectsShape(p, nowMillis, nowMinutes);
    var e := NextWindowEffects(p, true, nowMillis, nowMinutes);
    FiltersOfShape(e[0], e[1], e[2], e[3], e[4]);
    FiltersOne(e[0]); FiltersOne(e[1]); FiltersOne(e[2]); FiltersOne(e[3]); FiltersOne(e[4]);
    MinutesUntilSpec(p.startMinutes, nowMinutes);
    MinutesUntilSpec(p.endMinutes, nowMinutes);
  }

  /** `RecordingWindowReceiver.onReceive`: the two alarm actions map to their commands; anything else is ignored. */
  function OnReceive(action: Option<string>): (c: Option<Command>)
    ensures c == Some(StartRecording) <==> action == Some(ActionStart)
    ensures c == Some(StopRecording) <==> action == Some(ActionStop)
  {
    if action == Some(ActionStart) then Some(StartRecording)
    else if action == Some(ActionStop) then Some(StopRecording)
    else None
  }

  /**
   * `RecordingScheduler`: the preferences last seen on the flow, and the
   * effects issued so far. The alarm manager's presence, the clock and the
   * minute of the day are inputs.
   */
  class RecordingScheduler {
    var cachedPrefs: RecordingPreferences
    var effects: seq<Effect>

    constructor ()
      ensures cachedPrefs == Defaults && effects == []
    {
      cachedPrefs := Defaults;
      effects := [];
    }

    predicate ShouldRecord(nowMinutes: int)
      reads this
    {
      ShouldRecordNow(cachedPrefs, nowMinutes)
    }

    method ScheduleNextWindow(hasAlarmManager: bool, nowMillis: int, nowMinutes: int)
      modifies this
      ensures cachedPrefs == old(cachedPrefs)
      ensures effects == old(effects) + NextWindowEffects(cachedPrefs, hasAlarmManager, nowMillis, nowMinutes)
    {
      effects := effects + NextWindowEffects(cachedPrefs, hasAlarmManager, nowMillis, nowMinutes);
    }

    /** The collector of the preferences flow: cache the new value, then reschedule. */
    method OnPreferences(p: RecordingPreferences, hasAlarmManager: bool, nowMillis: int, nowMinutes: int)
      modifies this
      ensures cachedPrefs == p
      ensures effects == old(effects) + NextWindowEffects(p, hasAlarmManager, nowMillis, nowMinutes)
    {
      cachedPrefs := p;
      ScheduleNextWindow(hasAlarmManager, nowMillis, nowMinutes);
    }

    /**
     * A fired alarm: the receiver issues its command and nothing is
     * rescheduled, so no further alarm is set.
     */
    method OnAlarm(action: Option<string>)
      modifies this
      ensures cachedPrefs == old(cachedPrefs)
      ensures effects == old(effects) + (match OnReceive(action) case Some(c) => [Issue(c)] case None => [])
      ensures Alarms(effects) == Alarms(old(effects))
    {
      var added := match OnReceive(action) case Some(c) => [Issue(c)] case None => [];
      FiltersAppend(effects, added);
      effects := effects + added;
    }
  }
}
