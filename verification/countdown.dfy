/**
 The timer activity's state and its handlers: keypad, Start/Pause toggle,
 Clear, the two countdown callbacks, and saving and restoring the state
 across a configuration change. The platform countdown timer itself is not
 modelled; `running` stands for "a timer object exists", and its callbacks
 arrive as events carrying the milliseconds the platform reports.
 */
module Countdown {
  import opened DigitEntry

  /** Milliseconds per second: a tick reports milliseconds, the state holds whole seconds. */
  const MillisPerSecond: nat := 1000

  /**
   The three observable fields: the keyed digits, the seconds left (a
   Kotlin Long, zero when no countdown is held) and whether a timer exists.
   */
  datatype TimerState = TimerState(entryDigits: seq<int>, secondsRemaining: int, running: bool)

  /** The state of a fresh activity with nothing saved. */
  const Initial := TimerState([], 0, false)

  /** The keypad handler acts on the digits alone. */
  function OnKeypad(s: TimerState, key: int): (r: TimerState)
    ensures r.entryDigits == OnKeypadClick(s.entryDigits, key)
    ensures r.secondsRemaining == s.secondsRemaining && r.running == s.running
    ensures ValidEntry(s.entryDigits) ==> ValidEntry(r.entryDigits)
  {
    s.(entryDigits := OnKeypadClick(s.entryDigits, key))
  }

  /** Starting a timer holds `startTime` seconds and makes a timer exist; the digits stay. */
  function StartTimer(s: TimerState, startTime: int): (r: TimerState)
    ensures r.running && r.secondsRemaining == startTime && r.entryDigits == s.entryDigits
  {
    s.(secondsRemaining := startTime, running := true)
  }

  /**
   The Start/Pause toggle. With a timer it is cancelled and nothing else
   changes (pause). Without one, the held seconds are kept if nonzero
   (resume), otherwise seeded from the keyed digits read as HHMMSS (fresh
   start), and a timer is started; the digits are never cleared.
   */
  function OnStartClick(s: TimerState): (r: TimerState)
    ensures r.running == !s.running
    ensures r.entryDigits == s.entryDigits
    ensures s.running || s.secondsRemaining != 0 ==> r.secondsRemaining == s.secondsRemaining
    ensures !s.running && s.secondsRemaining == 0 ==>
      r.secondsRemaining
      == 3600 * HoursGroup(s.entryDigits) + 60 * MinutesGroup(s.entryDigits) + SecondsGroup(s.entryDigits)
  {
    if s.running then
      s.(running := false)
    else
      var seconds := if s.secondsRemaining == 0 then UpdateSecondsRemaining(s.entryDigits) else s.secondsRemaining;
      StartTimer(s, seconds)
  }

  /** Clear cancels any timer and forgets both the held seconds and the digits. */
  function OnClearClick(s: TimerState): (r: TimerState)
    ensures !r.running && r.secondsRemaining == 0 && r.entryDigits == []
  {
    TimerState([], 0, false)
  }

  /**
   A countdown tick: the seconds left become the reported milliseconds
   rounded down to whole seconds.
   */
  function OnTick(s: TimerState, millisUntilFinished: nat): (r: TimerState)
    ensures r.entryDigits == s.entryDigits && r.running == s.running
    ensures 0 <= r.secondsRemaining
    ensures r.secondsRemaining * MillisPerSecond <= millisUntilFinished < (r.secondsRemaining + 1) * MillisPerSecond
  {
    s.(secondsRemaining := millisUntilFinished / MillisPerSecond)
  }

  /** The countdown finishing: no seconds held and no timer, the digits kept for another run. */
  function OnFinish(s: TimerState): (r: TimerState)
    ensures r.entryDigits == s.entryDigits && r.secondsRemaining == 0 && !r.running
  {
    s.(secondsRemaining := 0, running := false)
  }

  /** Pausing and pressing the toggle again resumes exactly where the countdown was. */
  lemma PauseThenResume(s: TimerState)
    requires s.running && s.secondsRemaining != 0
    ensures OnStartClick(OnStartClick(s)) == s
  {
  }

  /**
   If a tick has already rounded the seconds down to zero, pausing and
   pressing the toggle again starts over from the keyed digits.
   */
  lemma PauseAtZeroRestartsFromDigits(s: TimerState)
    requires s.running && s.secondsRemaining == 0
    ensures OnStartClick(OnStartClick(s)) == s.(secondsRemaining := UpdateSecondsRemaining(s.entryDigits))
  {
  }

  /** A fresh start from a non-empty keyed buffer always holds a positive number of seconds. */
  lemma FreshStartIsPositive(s: TimerState)
    requires ValidEntry(s.entryDigits) && s.entryDigits != []
    requires !s.running && s.secondsRemaining == 0
    ensures 0 < OnStartClick(s).secondsRemaining <= MaxEntrySeconds
  {
  }

  /** Clear is idempotent and forgets where it started from. */
  lemma ClearIdempotent(s: TimerState, t: TimerState)
    ensures OnClearClick(OnClearClick(s)) == OnClearClick(s) == OnClearClick(t) == Initial
  {
  }

  // ---- saving and restoring across a configuration change ----

  datatype Option<T> = None | Some(value: T)

  function GetOr<T>(o: Option<T>, default: T): T {
    match o
    case Some(v) => v
    case None => default
  }

  /** The saved instance state; a key that was never put reads as absent. */
  datatype Bundle = Bundle(secondsRemaining: Option<int>, entryDigits: Option<seq<int>>, isTimerRunning: Option<bool>)

  /** Saving puts all three fields. */
  function OnSaveInstanceState(s: TimerState): (b: Bundle)
    ensures b.secondsRemaining == Some(s.secondsRemaining)
    ensures b.entryDigits == Some(s.entryDigits)
    ensures b.isTimerRunning == Some(s.running)
  {
    Bundle(Some(s.secondsRemaining), Some(s.entryDigits), Some(s.running))
  }

  /**
   Creating the activity: with nothing saved, the initial state. Otherwise
   the saved seconds (0 if absent) and digits (none if absent) come back as
   they were, and a timer is started again only when the saved seconds are
   positive and a timer was running. No time spent while stopped is deducted.
   */
  function OnCreate(saved: Option<Bundle>): (r: TimerState)
    ensures saved.None? ==> r == Initial
    ensures r.running <==> saved.Some? && GetOr(saved.value.isTimerRunning, false) && r.secondsRemaining > 0
    ensures saved.Some? && saved.value.secondsRemaining.None? ==> r.secondsRemaining == 0
    ensures saved.Some? && saved.value.entryDigits.None? ==> r.entryDigits == []
    ensures saved.Some? && saved.value.secondsRemaining.Some? ==> r.secondsRemaining == saved.value.secondsRemaining.value
    ensures saved.Some? && saved.value.entryDigits.Some? ==> r.entryDigits == saved.value.entryDigits.value
  {
    match saved
    case None => Initial
    case Some(b) =>
      var seconds := GetOr(b.secondsRemaining, 0);
      var restored := TimerState(GetOr(b.entryDigits, []), seconds, false);
      if seconds > 0 && GetOr(b.isTimerRunning, false) then StartTimer(restored, seconds) else restored
  }

  /**
   Saving and restoring gives back the digits and seconds unchanged; the
   timer survives exactly when it was running with seconds still to go.
   */
  lemma SaveRestoreRoundTrip(s: TimerState)
    ensures OnCreate(Some(OnSaveInstanceState(s))) == s.(running := s.running && s.secondsRemaining > 0)
  {
  }
}
