# Countdown timer: digit entry, toggle state machine and clock strings

This project models the core of a countdown-timer app written in Kotlin. The user types up to six
digits on a keypad. The digits are read as HHMMSS. A single toggle button then starts, pauses and
resumes a countdown, and a Clear button resets everything. The screen shows one of two strings: the
seconds left, split into hours, minutes and seconds, or a preview of the typed digits.

The model has four modules:

- `DigitEntry` (`digit_entry.dfy`) covers the keypad handler on the digit list. It also covers the
  reading of the list as HHMMSS seconds (`getTimeValues`, `getValue`, `updateSecondsRemaining`),
  together with a reference reading: the digits left-padded with zeros to six and cut into three
  two-digit groups.
- `TimeFormat` (`time_format.dfy`) covers `pad`, the seconds-based clock string
  (`getTimeString(Long)`) and the digit preview (`getTimeString(List<Int>)`). The unit labels are
  opaque strings. Kotlin's string templates, `padStart`, `joinToString` and `StringBuilder.insert`
  are written out.
- `Countdown` (`countdown.dfy`) covers the activity's three fields: the digits, the seconds left (a
  Long) and whether a timer exists. It models the Start/Pause toggle, Clear, the timer's `onTick` and
  `onFinish` callbacks, and saving and restoring the state.
- `Screen` (`screen.dfy`) covers the enabling rules, the toggle label and the choice of clock string.
  It also models the app as a user drives it: a control acts only while it is enabled, a timer
  callback arrives only while a timer exists, and a configuration change saves the state and
  creates the activity again from it.

Behaviour of the code that the model keeps as it is:

- There is no Stopped/Running/Paused enumeration. "Paused" is "no timer but seconds held".
- A tick sets the seconds to the reported milliseconds divided by 1000. It does not subtract one.
- A tick that reports under 1000 ms leaves 0 seconds while the timer still exists until it finishes.
  In that state the toggle reads Pause, but the keypad and Clear follow the "no seconds held" rule:
  keys are taken and the clock shows the typed digits. `Screen.SubSecondTickExample` reaches such a
  state by keying 9, 9, starting and ticking at 500 ms.
- Restoring after a configuration change deducts no elapsed time, and no timestamp is saved.
- Starting with no seconds and no digits is not refused by the handler. Only the disabled button
  prevents it.
- The preview shows the raw digit groups, while the countdown carries minutes and seconds past 59
  into the next unit. `Screen.PreviewMatchesCountdownIff` proves that the two strings agree exactly
  when the MM and SS groups are below 60. For example, keyed `9, 9` previews as `00h:00m:99s` but
  counts down from `00h:01m:39s`.

## Model

| member | source | states |
|---|---|---|
| DigitEntry.OnKeypadClick | app/src/main/java/com/example/androiddevchallenge/MainActivity.kt:105-113 | a non-digit key drops the last digit (nothing on an empty list); a digit is appended exactly when fewer than 6 are held and it is not a leading 0; keypad-built lists stay keypad-built (at most 6 digits, each 0..9, first not 0) |
| DigitEntry.BackspaceUndoesDigit | app/src/main/java/com/example/androiddevchallenge/MainActivity.kt:105-112 | backspace after an accepted digit gives back the list as it was |
| DigitEntry.RetypeUndoesBackspace | app/src/main/java/com/example/androiddevchallenge/MainActivity.kt:105-112 | on a keypad-built list, retyping the digit a backspace removed restores the list |
| DigitEntry.Reverse | app/src/main/java/com/example/androiddevchallenge/MainActivity.kt:121 | the reversed view has the same length and holds element `n-1-i` at position `i` |
| DigitEntry.GetValue | app/src/main/java/com/example/androiddevchallenge/MainActivity.kt:129-132 | a group read from position i is ten times the element at i+1 plus the element at i, a missing element counting as 0; over digits it lies in 0..99 |
| DigitEntry.GetTimeValues | app/src/main/java/com/example/androiddevchallenge/MainActivity.kt:120-127 | the three contributions are the SS group, 60 times the MM group and 3600 times the HH group of the list zero-padded to six |
| DigitEntry.UpdateSecondsRemaining | app/src/main/java/com/example/androiddevchallenge/MainActivity.kt:115-132 | the seeded seconds are 3600*HH + 60*MM + SS of the digits zero-padded to six, with no range check; for keypad-built digits, between 0 and 99*3600+99*60+99, and positive exactly when something was typed |
| TimeFormat.NatToStringRoundTrip | app/src/main/java/com/example/androiddevchallenge/MyApp.kt:229-230 | the decimal text of a number reads back as that number |
| TimeFormat.NatToString | app/src/main/java/com/example/androiddevchallenge/MyApp.kt:230 | a number's text is non-empty decimal text without a leading 0, one character exactly below 10 and at most two exactly below 100 |
| TimeFormat.PadStart | app/src/main/java/com/example/androiddevchallenge/MyApp.kt:236-237 | `padStart` keeps the text as its suffix, fills only with the pad character, and reaches the target length without ever truncating |
| TimeFormat.Pad | app/src/main/java/com/example/androiddevchallenge/MyApp.kt:229-230 | the padded field is decimal text of the number's value; it is 2 characters below 100 and keeps every digit (3 or more characters) from 100 up |
| TimeFormat.PadIsTwoDigits | app/src/main/java/com/example/androiddevchallenge/MyApp.kt:229-230 | below 100 the padded field is the tens digit and then the units digit |
| TimeFormat.SplitSeconds | app/src/main/java/com/example/androiddevchallenge/MyApp.kt:213-225 | taking whole hours and then whole minutes off gives h = t/3600, m = (t%3600)/60, s = t%60, with 3600h+60m+s = t, m < 60 and s < 60 |
| TimeFormat.ClockSplitUnique | app/src/main/java/com/example/androiddevchallenge/MyApp.kt:213-225 | a duration has only one split with minutes and seconds below 60 |
| TimeFormat.SecondsString | app/src/main/java/com/example/androiddevchallenge/MyApp.kt:209-227 | the seconds clock string is the padded fields of a clock split of t, each followed by its label, joined by ':' |
| Screen.SecondsStringBelowHundredHours | app/src/main/java/com/example/androiddevchallenge/MyApp.kt:213-226 | below 100 hours the seconds clock string is the two-digit texts of t/3600, (t%3600)/60 and t%60 |
| TimeFormat.IntToString | app/src/main/java/com/example/androiddevchallenge/MyApp.kt:236 | an Int's text is the shortest decimal text of its value (no leading 0) when non-negative, and a '-' followed by the decimal text of its magnitude otherwise |
| TimeFormat.JoinDigits | app/src/main/java/com/example/androiddevchallenge/MyApp.kt:236 | joining keypad digits gives one decimal character per digit, in order |
| TimeFormat.JoinToString | app/src/main/java/com/example/androiddevchallenge/MyApp.kt:236 | joining Ints gives at least one character per element, and exactly one per element for digits |
| TimeFormat.Insert | app/src/main/java/com/example/androiddevchallenge/MyApp.kt:240-241 | inserting t at i keeps the text before i, puts t at i and shifts the rest after it |
| TimeFormat.InsertLabels | app/src/main/java/com/example/androiddevchallenge/MyApp.kt:238-241 | appending the second label and then inserting at 4 before inserting at 2 cuts the padded text into HH, MM and SS |
| TimeFormat.DigitsString | app/src/main/java/com/example/androiddevchallenge/MyApp.kt:232-242 | the digit preview is `p[..2] h : p[2..4] m : p[4..] s`, where p is the joined digits left-padded with '0' to six |
| TimeFormat.DigitsStringOfValidEntry | app/src/main/java/com/example/androiddevchallenge/MyApp.kt:232-242 | for keypad-built digits the preview shows the HH, MM and SS groups, two digits each |
| Countdown.OnKeypad | app/src/main/java/com/example/androiddevchallenge/MainActivity.kt:105-113 | a keypad event applies the keypad handler to the digits and changes neither the seconds nor the timer; keypad-built lists stay keypad-built |
| Countdown.OnStartClick | app/src/main/java/com/example/androiddevchallenge/MainActivity.kt:93-103 | the toggle flips whether a timer exists and never touches the digits; a pause keeps the seconds; without a timer, nonzero seconds are kept and zero seconds are seeded as 3600*HH + 60*MM + SS |
| Countdown.StartTimer | app/src/main/java/com/example/androiddevchallenge/MainActivity.kt:134-135 | starting a timer holds the given seconds, makes a timer exist and keeps the digits |
| Countdown.PauseThenResume | app/src/main/java/com/example/androiddevchallenge/MainActivity.kt:93-102 | pausing a countdown with seconds left and pressing the toggle again restores the exact state |
| Countdown.PauseAtZeroRestartsFromDigits | app/src/main/java/com/example/androiddevchallenge/MainActivity.kt:94-101 | if a tick has rounded the seconds down to 0, pause then toggle seeds the full typed time again |
| Countdown.FreshStartIsPositive | app/src/main/java/com/example/androiddevchallenge/MainActivity.kt:97-101 | a fresh start from a non-empty keypad-built list holds between 1 and 99*3600+99*60+99 seconds |
| Countdown.OnClearClick | app/src/main/java/com/example/androiddevchallenge/MainActivity.kt:86-91 | Clear leaves no timer, no seconds and no digits |
| Countdown.ClearIdempotent | app/src/main/java/com/example/androiddevchallenge/MainActivity.kt:86-91 | Clear gives the same state from any state, and clearing twice is clearing once |
| Countdown.OnTick | app/src/main/java/com/example/androiddevchallenge/MainActivity.kt:137-139 | a tick sets the seconds to the reported milliseconds rounded down to whole seconds (1000*s <= ms < 1000*(s+1)) and changes nothing else |
| Countdown.OnFinish | app/src/main/java/com/example/androiddevchallenge/MainActivity.kt:141-144 | finishing leaves no timer and no seconds, and keeps the digits |
| Countdown.OnSaveInstanceState | app/src/main/java/com/example/androiddevchallenge/MainActivity.kt:70-78 | saving puts the seconds left, the digit list and whether a timer exists, each under its own key and with its current value |
| Countdown.OnCreate | app/src/main/java/com/example/androiddevchallenge/MainActivity.kt:41-53 | nothing saved gives the initial state; otherwise the saved seconds (0 if absent) and digits (none if absent) come back as saved, and a timer exists exactly when the saved flag was set and the restored seconds are positive |
| Countdown.SaveRestoreRoundTrip | app/src/main/java/com/example/androiddevchallenge/MainActivity.kt:44-77 | save then restore returns the same digits and seconds, with a timer exactly when one was running and seconds were left |
| Screen.ToggleLabelDescribesAction | app/src/main/java/com/example/androiddevchallenge/MyApp.kt:199-203 | Pause is shown when pressing pauses, Resume when it continues the held seconds, and Start when it seeds from the digits |
| Screen.ToggleLabelOf | app/src/main/java/com/example/androiddevchallenge/MyApp.kt:199-203 | the label is Pause exactly while a timer exists, Resume exactly while no timer exists but seconds are held, and Start otherwise |
| Screen.DisplayString | app/src/main/java/com/example/androiddevchallenge/MyApp.kt:155-159 | with seconds held the clock shows their padded hours, minutes and seconds; otherwise it shows the padded digits cut in three |
| Screen.ClearEnabled | app/src/main/java/com/example/androiddevchallenge/MyApp.kt:186 | on a reachable state, Clear is enabled exactly when pressing it changes more than the timer |
| Screen.StartEnabled | app/src/main/java/com/example/androiddevchallenge/MyApp.kt:196 | the toggle is enabled by the same rule as Clear, with or without a timer; on a reachable state with no timer, exactly when pressing it starts a countdown with seconds to go |
| Screen.KeypadEnabled | app/src/main/java/com/example/androiddevchallenge/MyApp.kt:104 | on a reachable state the keypad is enabled exactly when no seconds are held (including a running timer after a tick under 1000 ms), and then the toggle never reads Resume |
| Screen.PreviewMatchesCountdownIff | app/src/main/java/com/example/androiddevchallenge/MyApp.kt:155-159 | the digit preview equals the clock string of the seconds those digits seed exactly when the MM and SS groups are below 60 |
| Screen.PreviewEqualsCountdownSplit | app/src/main/java/com/example/androiddevchallenge/MyApp.kt:213-242 | when the two-digit groups laid out equal a padded clock split, the groups are that split |
| Screen.NinetyNineSecondsExample | app/src/main/java/com/example/androiddevchallenge/MyApp.kt:155-159 | keyed 9, 9 previews as 00h:00m:99s and seeds 99 seconds, which split as 0h 1m 39s, so the two strings differ for any labels |
| Screen.StartKeepsDisplayIff | app/src/main/java/com/example/androiddevchallenge/MyApp.kt:155-159 | pressing Start on typed digits leaves the shown string unchanged exactly when MM and SS are below 60 |
| Screen.EnabledStartIsPositive | app/src/main/java/com/example/androiddevchallenge/MyApp.kt:196 | a start made through the enabled toggle always starts a timer with a positive number of seconds |
| Screen.DisabledClearHasNothingToClear | app/src/main/java/com/example/androiddevchallenge/MyApp.kt:186 | Clear is disabled only when there are no digits and no seconds to clear |
| Screen.KeypadEnabledShowsPreview | app/src/main/java/com/example/androiddevchallenge/MyApp.kt:104 | the keypad is enabled exactly when no seconds are held, and the clock then shows the digit preview; otherwise it shows the countdown |
| Screen.SubSecondTickShowsPreview | app/src/main/java/com/example/androiddevchallenge/MainActivity.kt:137-139 | while a timer runs with 0 seconds the toggle reads Pause, the keypad is enabled, the clock shows the digit preview and a key press changes the digits |
| Screen.SubSecondTickExample | app/src/main/java/com/example/androiddevchallenge/MainActivity.kt:105-139 | keying 9, 9, starting and a tick at 500 ms reach a running timer with 0 seconds, where a further key is appended |
| Screen.Step | app/src/main/java/com/example/androiddevchallenge/MainActivity.kt:41-146 | every user event, timer callback and configuration change keeps the digits keypad-built and the seconds non-negative; a disabled control and a callback with no timer change nothing; a configuration change keeps digits and seconds and keeps a timer only with seconds left |
| Screen.Run | app/src/main/java/com/example/androiddevchallenge/MainActivity.kt:41-146 | any sequence of events keeps the digits keypad-built and the seconds non-negative |
| Screen.RunAppend | app/src/main/java/com/example/androiddevchallenge/MainActivity.kt:41-146 | running two batches of events in turn is running them as one sequence |
| Screen.InitialRunInvariant | app/src/main/java/com/example/androiddevchallenge/MainActivity.kt:105-112 | from the initial state, the digit list never exceeds 6 entries and never starts with 0 |

## Left out

- Scheduling by the platform's countdown timer (the 1000 ms interval, wall-clock timing, how many
  ticks arrive and when) is left out. A tick is an event that carries any `millisUntilFinished`. The
  model does not assume one second per tick.
- `onDestroy`'s cancellation and the Bundle plumbing are lifecycle I/O. Only the three saved fields
  are modelled. A missing key reads as 0, as false, or as no digits.
- Resource lookups are left out: the unit labels are opaque strings. Dimensions, themes and the
  Portrait, Landscape and Surface layout are left out too. Orientation only picks a layout, and both
  layouts use the same rules.
- Keypad.kt is left out. Its only logic turns a key character into `char - '0'`, so the backspace
  glyph arrives as an Int greater than 9. `OnKeypadClick` accepts any Int key to cover this.
- CountDown.kt (the animated per-character rendering) and the preview composables are presentation
  only.
- 64-bit Long arithmetic is modelled with unbounded integers. The values involved stay below 100
  hours of seconds times 1000, so no wrap-around can occur.
- 32-bit Int arithmetic in `getValue`, `getTimeValues` and the sum before `.toLong()` is modelled with
  unbounded integers too. `GetValue`, `GetTimeValues` and `UpdateSecondsRemaining` accept any list
  of integers, where Kotlin could wrap on huge elements. Over keypad digits the sum is at most
  359999, so the Int arithmetic cannot wrap either.
- Pad: takes a non-negative number only. Its one caller passes fields split from a positive seconds
  count, so Kotlin's text for negative Longs is not modelled there.
- SecondsString: takes a non-negative count. The screen calls it only when the seconds are positive.
