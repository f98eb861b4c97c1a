/**
 What the timer screen shows and allows: the clock string, which buttons and
 keys are enabled, and the toggle's label; and the app as a user drives it,
 where a control only acts while it is enabled and the timer's callbacks only
 arrive while a timer exists.
 */
module Screen {
  import opened DigitEntry
  import opened TimeFormat
  import opened Countdown

  /** Something has been typed. */
  predicate HasEnteredTime(s: TimerState) {
    |s.entryDigits| > 0
  }

  /**
   Seconds are held: a paused countdown, or a running one whose last tick
   reported at least a whole second.
   */
  predicate HasRunningTime(s: TimerState) {
    s.secondsRemaining > 0
  }

  /**
   Clear is enabled while something is typed or seconds are held: on a state
   the app can reach, exactly when pressing it would change more than the
   timer.
   */
  function ClearEnabled(s: TimerState): (r: bool)
    ensures Consistent(s) ==> (r <==> OnClearClick(s) != s.(running := false))
  {
    HasEnteredTime(s) || HasRunningTime(s)
  }

  /**
   The Start/Pause toggle shares Clear's enabling rule: on a reachable state
   with no timer, it is enabled exactly when pressing it would start a
   countdown with seconds to go.
   */
  function StartEnabled(s: TimerState): (r: bool)
    ensures r <==> ClearEnabled(s)
    ensures Consistent(s) && !s.running ==> (r <==> OnStartClick(s).secondsRemaining > 0)
  {
    HasEnteredTime(s) || HasRunningTime(s)
  }

  /**
   The keypad takes input exactly while no seconds are held. That includes a
   running timer whose last tick reported under 1000 ms, which rounds to 0.
   */
  function KeypadEnabled(s: TimerState): (r: bool)
    ensures Consistent(s) ==> (r <==> !HasRunningTime(s))
    ensures r ==> ToggleLabelOf(s) != Resume
  {
    s.secondsRemaining == 0
  }

  datatype ToggleLabel = Pause | Resume | Start

  /** The toggle reads Pause while running, Resume while a countdown is held, else Start. */
  function ToggleLabelOf(s: TimerState): (r: ToggleLabel)
    ensures r == Pause <==> s.running
    ensures r == Resume <==> !s.running && HasRunningTime(s)
    ensures r == Start <==> !s.running && !HasRunningTime(s)
  {
    if s.running then Pause
    else if HasRunningTime(s) then Resume
    else Start
  }

  /**
   The clock shows the seconds left, split into hours, minutes and seconds,
   while there are any, and the padded keyed digits cut in three otherwise.
   */
  function DisplayString(s: TimerState, labels: Labels): (r: string)
    ensures s.secondsRemaining > 0 ==>
      exists d :: IsClockSplit(s.secondsRemaining, d) && r == Layout(Pad(d.hours), Pad(d.minutes), Pad(d.seconds), labels)
    ensures s.secondsRemaining <= 0 ==>
      var p := PaddedDigits(s.entryDigits); r == Layout(p[..2], p[2..4], p[4..], labels)
  {
    if s.secondsRemaining > 0 then SecondsString(s.secondsRemaining, labels)
    else DigitsString(s.entryDigits, labels)
  }

  /** The toggle's label says what pressing it does. */
  lemma ToggleLabelDescribesAction(s: TimerState)
    ensures ToggleLabelOf(s) == Pause ==> OnStartClick(s) == s.(running := false)
    ensures ToggleLabelOf(s) == Resume ==> OnStartClick(s) == s.(running := true)
    ensures ToggleLabelOf(s) == Start && s.secondsRemaining == 0 ==>
      OnStartClick(s) == TimerState(s.entryDigits, UpdateSecondsRemaining(s.entryDigits), true)
  {
  }

  // ---- the preview and the countdown disagree past 59 ----

  /**
   The keyed-digit preview and the clock string of the seconds a start seeds
   from those digits are the same text exactly when the minutes and seconds
   groups are both below 60. Otherwise the preview shows the raw groups (say
   00:00:99) while the countdown shows them carried (00:01:39).
   */
  lemma PreviewMatchesCountdownIff(ds: seq<int>, labels: Labels)
    requires ValidEntry(ds)
    ensures UpdateSecondsRemaining(ds) >= 0
    ensures DigitsString(ds, labels) == SecondsString(UpdateSecondsRemaining(ds), labels)
        <==> MinutesGroup(ds) < 60 && SecondsGroup(ds) < 60
  {
    DigitsStringOfValidEntry(ds, labels);
    var hh, mm, ss := HoursGroup(ds), MinutesGroup(ds), SecondsGroup(ds);
    var t: nat := UpdateSecondsRemaining(ds);
    var d := SplitSeconds(t);
    var preview := DigitsString(ds, labels);
    var countdown := SecondsString(t, labels);
    assert countdown == Layout(Pad(d.hours), Pad(d.minutes), Pad(d.seconds), labels);
    if mm < 60 && ss < 60 {
      ClockSplitUnique(t, d, Hms(hh, mm, ss));
      PadIsTwoDigits(hh);
      PadIsTwoDigits(mm);
      PadIsTwoDigits(ss);
    }
    if preview == countdown {
      PreviewEqualsCountdownSplit(hh, mm, ss, d, labels);
    }
  }

  /**
   When the two-digit groups laid out equal the padded clock split, the
   groups are the clock split, so minutes and seconds are below 60.
   */
  lemma PreviewEqualsCountdownSplit(hh: nat, mm: nat, ss: nat, d: Hms, labels: Labels)
    requires hh < 100 && mm < 100 && ss < 100 && d.minutes < 60 && d.seconds < 60
    requires Layout(TwoDigits(hh), TwoDigits(mm), TwoDigits(ss), labels)
          == Layout(Pad(d.hours), Pad(d.minutes), Pad(d.seconds), labels)
    ensures hh == d.hours && mm == d.minutes && ss == d.seconds
  {
    var x := Layout(TwoDigits(hh), TwoDigits(mm), TwoDigits(ss), labels);
    var y := Layout(Pad(d.hours), Pad(d.minutes), Pad(d.seconds), labels);
    assert |x| == |y|;
    assert |Pad(d.hours)| == 2;
    LayoutInjective(TwoDigits(hh), TwoDigits(mm), TwoDigits(ss), Pad(d.hours), Pad(d.minutes), Pad(d.seconds), labels);
  }

  /**
   Keying 9, 9 previews as 00h:00m:99s, but starting it holds 99 seconds,
   which the countdown shows as 0 hours, 1 minute and 39 seconds: whatever
   the unit labels, the two strings differ.
   */
  lemma NinetyNineSecondsExample(labels: Labels)
    ensures UpdateSecondsRemaining([9, 9]) == 99
    ensures DigitsString([9, 9], Labels("h", "m", "s")) == "00h:00m:99s"
    ensures SplitSeconds(99) == Hms(0, 1, 39)
    ensures DigitsString([9, 9], labels) != SecondsString(99, labels)
  {
    NinetyNineGroups();
    NinetyNinePreview();
    PreviewMatchesCountdownIff([9, 9], labels);
  }

  lemma NinetyNineGroups()
    ensures ValidEntry([9, 9])
    ensures HoursGroup([9, 9]) == 0 && MinutesGroup([9, 9]) == 0 && SecondsGroup([9, 9]) == 99
  {
    assert Window([9, 9]) == [0, 0, 0, 0, 9, 9];
  }

  lemma NinetyNinePreview()
    ensures DigitsString([9, 9], Labels("h", "m", "s")) == "00h:00m:99s"
  {
    var labels := Labels("h", "m", "s");
    NinetyNineGroups();
    assert TwoDigits(0) == "00" && TwoDigits(99) == "99" by {
      assert DigitChar(0) == '0' && DigitChar(9) == '9';
    }
    assert DigitsString([9, 9], labels) == Layout("00", "00", "99", labels) by {
      DigitsStringOfValidEntry([9, 9], labels);
    }
  }

  /** Below 100 hours the countdown string is three two-digit fields. */
  lemma SecondsStringBelowHundredHours(t: nat, labels: Labels)
    requires t < 100 * 3600
    ensures SecondsString(t, labels) == Layout(TwoDigits(t / 3600), TwoDigits((t % 3600) / 60), TwoDigits(t % 60), labels)
  {
    var d := SplitSeconds(t);
    PadIsTwoDigits(d.hours);
    PadIsTwoDigits(d.minutes);
    PadIsTwoDigits(d.seconds);
  }

  /**
   Starting from a keyed buffer changes what the clock shows exactly when
   its minutes or seconds group is 60 or more.
   */
  lemma StartKeepsDisplayIff(s: TimerState, labels: Labels)
    requires ValidEntry(s.entryDigits) && s.entryDigits != []
    requires !s.running && s.secondsRemaining == 0
    ensures DisplayString(OnStartClick(s), labels) == DisplayString(s, labels)
        <==> MinutesGroup(s.entryDigits) < 60 && SecondsGroup(s.entryDigits) < 60
  {
    PreviewMatchesCountdownIff(s.entryDigits, labels);
  }

  // ---- the app as a user drives it ----

  datatype Event =
    | KeypadKey(key: int)
    | StartPressed
    | ClearPressed
    | Tick(millisUntilFinished: nat)
    | Finished
    | Recreate

  /**
   One event: a control acts only while it is enabled, and a timer callback
   only while a timer exists (a cancelled timer calls back no more). A
   configuration change saves the state and creates the activity from it.
   Every event keeps a reachable state reachable.
   */
  function Step(s: TimerState, e: Event): (r: TimerState)
    ensures Consistent(s) ==> Consistent(r)
    ensures e.KeypadKey? && !KeypadEnabled(s) ==> r == s
    ensures e.StartPressed? && !StartEnabled(s) ==> r == s
    ensures e.ClearPressed? && !ClearEnabled(s) ==> r == s
    ensures (e.Tick? || e.Finished?) && !s.running ==> r == s
    ensures e.Recreate? ==> r == s.(running := s.running && s.secondsRemaining > 0)
  {
    match e
    case KeypadKey(key) => if KeypadEnabled(s) then OnKeypad(s, key) else s
    case StartPressed => if StartEnabled(s) then OnStartClick(s) else s
    case ClearPressed => if ClearEnabled(s) then OnClearClick(s) else s
    case Tick(millis) => if s.running then OnTick(s, millis) else s
    case Finished => if s.running then OnFinish(s) else s
    case Recreate =>
      SaveRestoreRoundTrip(s);
      OnCreate(Some(OnSaveInstanceState(s)))
  }

  /** The events in order; a reachable state stays reachable through all of them. */
  function Run(s: TimerState, events: seq<Event>): (r: TimerState)
    ensures Consistent(s) ==> Consistent(r)
    ensures events == [] ==> r == s
    decreases |events|
  {
    if events == [] then s else Run(Step(s, events[0]), events[1..])
  }

  /** Running two batches of events is running them one after the other. */
  lemma {:induction false} RunAppend(s: TimerState, a: seq<Event>, b: seq<Event>)
    ensures Run(s, a + b) == Run(Run(s, a), b)
    decreases |a|
  {
    if a != [] {
      assert (a + b)[0] == a[0];
      assert (a + b)[1..] == a[1..] + b;
      RunAppend(Step(s, a[0]), a[1..], b);
    } else {
      assert a + b == b;
    }
  }

  /** What every state the app can reach satisfies: a keypad-built buffer and no negative seconds. */
  predicate Consistent(s: TimerState) {
    ValidEntry(s.entryDigits) && s.secondsRemaining >= 0
  }

  /** A start the enabled toggle makes never starts an empty countdown. */
  lemma EnabledStartIsPositive(s: TimerState)
    requires Consistent(s) && StartEnabled(s) && !s.running
    ensures OnStartClick(s).running && OnStartClick(s).secondsRemaining > 0
  {
  }

  /** Clear is disabled only when there is nothing left for it to clear. */
  lemma DisabledClearHasNothingToClear(s: TimerState)
    requires Consistent(s) && !ClearEnabled(s)
    ensures OnClearClick(s) == s.(running := false)
  {
  }

  /** While the keypad takes input the clock shows the typed digits; otherwise it shows the countdown. */
  lemma KeypadEnabledShowsPreview(s: TimerState, labels: Labels)
    requires Consistent(s)
    ensures KeypadEnabled(s) <==> !HasRunningTime(s)
    ensures KeypadEnabled(s) ==> DisplayString(s, labels) == DigitsString(s.entryDigits, labels)
    ensures !KeypadEnabled(s) ==> DisplayString(s, labels) == SecondsString(s.secondsRemaining, labels)
  {
  }

  /**
   A timer that is still running after a tick reported under a second holds
   0 seconds: the toggle reads Pause, yet the keypad takes keys and the clock
   shows the typed digits until the timer finishes.
   */
  lemma SubSecondTickShowsPreview(s: TimerState, key: int, labels: Labels)
    requires Consistent(s) && s.running && s.secondsRemaining == 0
    ensures KeypadEnabled(s) && ClearEnabled(s) == HasEnteredTime(s) && ToggleLabelOf(s) == Pause
    ensures DisplayString(s, labels) == DigitsString(s.entryDigits, labels)
    ensures Step(s, KeypadKey(key)) == s.(entryDigits := OnKeypadClick(s.entryDigits, key))
  {
  }

  /**
   Such a state is reachable: key 9, 9, start, and a tick at 500 ms leave a
   running timer with 0 seconds, on which a further key is appended.
   */
  lemma SubSecondTickExample()
    ensures Run(Initial, [KeypadKey(9), KeypadKey(9), StartPressed, Tick(500)]) == TimerState([9, 9], 0, true)
    ensures Step(TimerState([9, 9], 0, true), KeypadKey(1)) == TimerState([9, 9, 1], 0, true)
  {
    var typed := [KeypadKey(9), KeypadKey(9)];
    var started := [StartPressed, Tick(500)];
    assert [KeypadKey(9), KeypadKey(9), StartPressed, Tick(500)] == typed + started;
    RunAppend(Initial, typed, started);
    TypeNineNine();
    StartNineNineThenTick();
  }

  lemma TypeNineNine()
    ensures Run(Initial, [KeypadKey(9), KeypadKey(9)]) == TimerState([9, 9], 0, false)
  {
    assert [KeypadKey(9), KeypadKey(9)][1..] == [KeypadKey(9)];
    assert Step(Initial, KeypadKey(9)) == TimerState([9], 0, false);
    assert Step(TimerState([9], 0, false), KeypadKey(9)) == TimerState([9, 9], 0, false);
  }

  lemma StartNineNineThenTick()
    ensures Run(TimerState([9, 9], 0, false), [StartPressed, Tick(500)]) == TimerState([9, 9], 0, true)
  {
    NinetyNineGroups();
    assert [StartPressed, Tick(500)][1..] == [Tick(500)];
    assert Step(TimerState([9, 9], 0, false), StartPressed) == TimerState([9, 9], 99, true);
    assert Step(TimerState([9, 9], 99, true), Tick(500)) == TimerState([9, 9], 0, true);
  }

  /** In particular the buffer is never longer than six digits and never starts with 0. */
  lemma InitialRunInvariant(events: seq<Event>)
    ensures |Run(Initial, events).entryDigits| <= MaxDigitsLen
    ensures Run(Initial, events).entryDigits != [] ==> Run(Initial, events).entryDigits[0] != 0
  {
  }
}
