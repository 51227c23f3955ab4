/**
 * The recording preferences: whether local recording and the daily
 * schedule are on, and the schedule's start and end as minutes of the day;
 * the window test, the normalisation of minute values, the "HH:MM" label,
 * and the repository that keeps the emitted state and the preference store
 * in step.
 */
module Preferences {
  import opened Text

  const MinutesPerDay: int := 24 * 60
  const DefaultStartMinutes: int := 0
  const DefaultEndMinutes: int := MinutesPerDay

  const KeyLocalEnabled: string := "local_recording_enabled"
  const KeyScheduleEnabled: string := "schedule_enabled"
  const KeyStartMinutes: string := "schedule_start_minutes"
  const KeyEndMinutes: string := "schedule_end_minutes"

  datatype RecordingPreferences = RecordingPreferences(
    localRecordingEnabled: bool,
    scheduleEnabled: bool,
    startMinutes: int,
    endMinutes: int)

  /** The constructor defaults: nothing enabled, window 0..1440. */
  const Defaults: RecordingPreferences :=
    RecordingPreferences(false, false, DefaultStartMinutes, DefaultEndMinutes)

  /**
   * `isWithinActiveWindow`: always inside when the schedule is off or the
   * window is empty; a window with start before end is `[start, end)`; one
   * with start after end wraps past midnight.
   */
  predicate IsWithinActiveWindow(p: RecordingPreferences, nowMinutesOfDay: int) {
    if !p.scheduleEnabled || p.startMinutes == p.endMinutes then true
    else if p.startMinutes < p.endMinutes then p.startMinutes <= nowMinutesOfDay < p.endMinutes
    else nowMinutesOfDay >= p.startMinutes || nowMinutesOfDay < p.endMinutes
  }

  lemma WindowAlwaysWhenOff(p: RecordingPreferences, now: int)
    requires !p.scheduleEnabled || p.startMinutes == p.endMinutes
    ensures IsWithinActiveWindow(p, now)
  {
  }

  lemma WindowPlain(p: RecordingPreferences, now: int)
    requires p.scheduleEnabled && p.startMinutes < p.endMinutes
    ensures IsWithinActiveWindow(p, now) <==> p.startMinutes <= now < p.endMinutes
  {
  }

  lemma WindowWraps(p: RecordingPreferences, now: int)
    requires p.scheduleEnabled && p.startMinutes > p.endMinutes
    ensures IsWithinActiveWindow(p, now) <==> now >= p.startMinutes || now < p.endMinutes
  {
  }

  /**
   * A wrapping window and the plain window of the rest of the day are
   * complements: within a day a minute is in exactly one of them.
   */
  lemma WindowComplement(p: RecordingPreferences, now: int)
    requires p.scheduleEnabled && p.startMinutes != p.endMinutes
    ensures IsWithinActiveWindow(p, now)
        <==> !IsWithinActiveWindow(p.(startMinutes := p.endMinutes, endMinutes := p.startMinutes), now)
  {
  }

  /** The overnight window 22:00 to 06:00: inside at 23:30 and 02:00, outside at noon. */
  lemma OvernightExample()
    ensures var p := RecordingPreferences(true, true, 1320, 360);
      IsWithinActiveWindow(p, 1410) && IsWithinActiveWindow(p, 120) && !IsWithinActiveWindow(p, 720)
  {
  }

  // ------------------------------------------------------------ normalisation

  /** Kotlin's `%` by the day length: the remainder takes the sign of the dividend. */
  function KotlinRemDay(x: int): (r: int)
    ensures -MinutesPerDay < r < MinutesPerDay
    ensures x >= 0 ==> 0 <= r
    ensures x < 0 ==> r <= 0
    ensures (x - r) % MinutesPerDay == 0
  {
    if x >= 0 then x % MinutesPerDay
    else
      var q := (-x) / MinutesPerDay;
      assert -x == q * MinutesPerDay + (-x) % MinutesPerDay;
      -((-x) % MinutesPerDay)
  }

  /** `normalizeToScheduleRange`: the remainder, moved into range when negative. */
  function Normalize(x: int): (r: int)
    ensures 0 <= r < MinutesPerDay
    ensures (x - r) % MinutesPerDay == 0
  {
    var value := KotlinRemDay(x);
    if value < 0 then value + MinutesPerDay else value
  }

  /** The normal form of a minute value is the only one in range congruent to it. */
  lemma {:induction false} NormalizeUnique(x: int, r: int)
    requires 0 <= r < MinutesPerDay && (x - r) % MinutesPerDay == 0
    ensures Normalize(x) == r
  {
    var n := Normalize(x);
    assert (n - r) % MinutesPerDay == 0 by {
      assert n - r == (x - r) - (x - n);
    }
  }

  lemma NormalizeIdentity(x: int)
    requires 0 <= x < MinutesPerDay
    ensures Normalize(x) == x
  {
    NormalizeUnique(x, x);
  }

  lemma NormalizeIdempotent(x: int)
    ensures Normalize(Normalize(x)) == Normalize(x)
  {
    NormalizeIdentity(Normalize(x));
  }

  /** Values a whole number of days apart normalise alike. */
  lemma NormalizeShift(x: int, days: int)
    ensures Normalize(x + days * MinutesPerDay) == Normalize(x)
  {
    var n := Normalize(x);
    assert (x + days * MinutesPerDay - n) == (x - n) + days * MinutesPerDay;
    NormalizeUnique(x + days * MinutesPerDay, n);
  }

  /**
   * `minutesLabel`: the normalised value as `HH:MM`, two digits each, with
   * HH in 0..23 and MM in 0..59 making up that value.
   */
  function MinutesLabel(minutes: int): (s: string)
    ensures |s| == 5 && s[2] == ':'
    ensures AllDigits(s[..2]) && AllDigits(s[3..])
    ensures DigitsValue(s[..2]) < 24 && DigitsValue(s[3..]) < 60
    ensures DigitsValue(s[..2]) * 60 + DigitsValue(s[3..]) == Normalize(minutes)
  {
    var normalized := Normalize(minutes);
    var hh, mm := Pad2(normalized / 60), Pad2(normalized % 60);
    var s := hh + ":" + mm;
    assert s[..2] == hh && s[3..] == mm;
    s
  }

  /** Labels are faithful: two minute values get the same label exactly when they normalise alike. */
  lemma LabelInjective(a: int, b: int)
    ensures MinutesLabel(a) == MinutesLabel(b) <==> Normalize(a) == Normalize(b)
  {
    var la, lb := MinutesLabel(a), MinutesLabel(b);
    if la == lb {
      assert la[..2] == lb[..2] && la[3..] == lb[3..];
    }
  }

  // ---------------------------------------------------------- the preference store

  /** The `recording_prefs` store: booleans and integers by key. */
  datatype Store = Store(bools: map<string, bool>, ints: map<string, int>)

  function GetBoolean(s: Store, key: string, fallback: bool): bool {
    if key in s.bools then s.bools[key] else fallback
  }

  function GetInt(s: Store, key: string, fallback: int): int {
    if key in s.ints then s.ints[key] else fallback
  }

  /** `loadFromPrefs`: the stored values, with defaults, and both times normalised. */
  function LoadFromPrefs(s: Store): (p: RecordingPreferences)
    ensures 0 <= p.startMinutes < MinutesPerDay && 0 <= p.endMinutes < MinutesPerDay
    ensures p.localRecordingEnabled == GetBoolean(s, KeyLocalEnabled, false)
    ensures p.scheduleEnabled == GetBoolean(s, KeyScheduleEnabled, false)
  {
    RecordingPreferences(
      GetBoolean(s, KeyLocalEnabled, false),
      GetBoolean(s, KeyScheduleEnabled, false),
      Normalize(GetInt(s, KeyStartMinutes, DefaultStartMinutes)),
      Normalize(GetInt(s, KeyEndMinutes, DefaultEndMinutes)))
  }

  /**
   * An empty store loads as nothing enabled with start and end both 0: the
   * default end of 1440 normalises to 0, so the window is empty, which the
   * window test reads as "always".
   */
  lemma LoadEmpty()
    ensures LoadFromPrefs(Store(map[], map[])) == RecordingPreferences(false, false, 0, 0)
    ensures LoadFromPrefs(Store(map[], map[])) != Defaults
  {
    NormalizeIdentity(0);
    NormalizeUnique(MinutesPerDay, 0);
  }

  /** ... and such a window admits every minute of the day, as the default one does. */
  lemma LoadedDefaultWindowAgrees(now: int, schedule: bool)
    requires 0 <= now < MinutesPerDay
    ensures IsWithinActiveWindow(RecordingPreferences(false, schedule, 0, 0), now)
    ensures IsWithinActiveWindow(Defaults.(scheduleEnabled := schedule), now)
  {
  }

  /** The edit of `saveAndEmit`: all four values put under their keys. */
  function Save(s: Store, p: RecordingPreferences): (r: Store)
    ensures GetBoolean(r, KeyLocalEnabled, false) == p.localRecordingEnabled
    ensures GetBoolean(r, KeyScheduleEnabled, false) == p.scheduleEnabled
    ensures GetInt(r, KeyStartMinutes, DefaultStartMinutes) == p.startMinutes
    ensures GetInt(r, KeyEndMinutes, DefaultEndMinutes) == p.endMinutes
  {
    Store(
      s.bools[KeyLocalEnabled := p.localRecordingEnabled][KeyScheduleEnabled := p.scheduleEnabled],
      s.ints[KeyStartMinutes := p.startMinutes][KeyEndMinutes := p.endMinutes])
  }

  /** Preferences whose times are in range. */
  predicate IsNormal(p: RecordingPreferences) {
    0 <= p.startMinutes < MinutesPerDay && 0 <= p.endMinutes < MinutesPerDay
  }

  /** Saving then loading gives back any preferences with times in range. */
  lemma SaveLoad(s: Store, p: RecordingPreferences)
    requires IsNormal(p)
    ensures LoadFromPrefs(Save(s, p)) == p
  {
    NormalizeIdentity(p.startMinutes);
    NormalizeIdentity(p.endMinutes);
  }

  /**
   * `RecordingPreferencesRepository`: the state flow's value and the store.
   * The persisted values always load as the current state, so a restart
   * sees what was last emitted.
   */
  class PreferencesRepository {
    var state: RecordingPreferences
    var store: Store

    ghost predicate Valid()
      reads this
    {
      LoadFromPrefs(store) == state
    }

    constructor (store: Store)
      ensures Valid() && this.store == store && state == LoadFromPrefs(store)
    {
      this.store := store;
      state := LoadFromPrefs(store);
    }

    /**
     * `saveAndEmit`: build the next state from the current one, persist
     * it, and set it as the flow's value; collectors see it only if it
     * differs from the current one.
     */
    method SaveAndEmit(next: RecordingPreferences) returns (emitted: bool)
      modifies this
      ensures IsNormal(next) ==> Valid()
      ensures state == next && store == Save(old(store), next)
      ensures emitted <==> next != old(state)
    {
      store := Save(store, next);
      emitted := next != state;
      state := next;
      if IsNormal(next) {
        SaveLoad(old(store), next);
      }
    }

    method UpdateLocalRecordingEnabled(enabled: bool) returns (emitted: bool)
      requires Valid()
      modifies this
      ensures Valid()
      ensures state == old(state).(localRecordingEnabled := enabled)
      ensures emitted <==> enabled != old(state).localRecordingEnabled
    {
      emitted := SaveAndEmit(state.(localRecordingEnabled := enabled));
    }

    method UpdateScheduleEnabled(enabled: bool) returns (emitted: bool)
      requires Valid()
      modifies this
      ensures Valid()
      ensures state == old(state).(scheduleEnabled := enabled)
      ensures emitted <==> enabled != old(state).scheduleEnabled
    {
      emitted := SaveAndEmit(state.(scheduleEnabled := enabled));
    }

    /** Stores the normalised value; minutes a whole day apart are the same update. */
    method UpdateStartMinutes(minutes: int) returns (emitted: bool)
      requires Valid()
      modifies this
      ensures Valid()
      ensures state == old(state).(startMinutes := Normalize(minutes))
      ensures emitted <==> Normalize(minutes) != old(state).startMinutes
    {
      var normalized := Normalize(minutes);
      emitted := SaveAndEmit(state.(startMinutes := normalized));
    }

    method UpdateEndMinutes(minutes: int) returns (emitted: bool)
      requires Valid()
      modifies this
      ensures Valid()
      ensures state == old(state).(endMinutes := Normalize(minutes))
      ensures emitted <==> Normalize(minutes) != old(state).endMinutes
    {
      var normalized := Normalize(minutes);
      emitted := SaveAndEmit(state.(endMinutes := normalized));
    }
  }
}
