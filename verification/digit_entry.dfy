/**
 The keypad entry buffer of the countdown timer: the digits typed so far,
 most recent last, and their reading as an HHMMSS duration in seconds.
 */
module DigitEntry {

  /** The buffer never holds more than six digits: two each for hours, minutes and seconds. */
  const MaxDigitsLen: nat := 6

  /** The largest number of seconds six digits can denote: 99h 99m 99s. */
  const MaxEntrySeconds: nat := 99 * 3600 + 99 * 60 + 99

  /** Key codes 0..9 are digits; every other code is the backspace key. */
  predicate IsDigitKey(key: int) {
    0 <= key <= 9
  }

  /** What the keypad can build: at most six digits, each 0..9, never starting with 0. */
  predicate ValidEntry(ds: seq<int>) {
    && |ds| <= MaxDigitsLen
    && (forall i :: 0 <= i < |ds| ==> IsDigitKey(ds[i]))
    && (|ds| > 0 ==> ds[0] != 0)
  }

  /** Whether a digit key press is taken into the buffer. */
  predicate AcceptsDigit(ds: seq<int>, key: int) {
    IsDigitKey(key) && |ds| < MaxDigitsLen && (|ds| > 0 || key != 0)
  }

  /**
   The keypad handler: a digit is appended while the buffer has room and it
   would not be a leading zero; any other key removes the last digit, and
   does nothing on an empty buffer.
   */
  function OnKeypadClick(ds: seq<int>, key: int): (r: seq<int>)
    ensures ValidEntry(ds) ==> ValidEntry(r)
    ensures !IsDigitKey(key) ==> r <= ds && |r| == if ds == [] then 0 else |ds| - 1
    ensures IsDigitKey(key) ==> ds <= r && |r| <= |ds| + 1
    ensures |r| == |ds| + 1 <==> AcceptsDigit(ds, key)
    ensures |r| == |ds| + 1 ==> r[|ds|] == key
  {
    if !IsDigitKey(key) then
      if |ds| == 0 then ds else ds[..|ds| - 1]
    else if |ds| < MaxDigitsLen && (|ds| > 0 || key != 0) then
      ds + [key]
    else
      ds
  }

  /** Backspace undoes an accepted digit. */
  lemma BackspaceUndoesDigit(ds: seq<int>, key: int, backspace: int)
    requires AcceptsDigit(ds, key)
    requires !IsDigitKey(backspace)
    ensures OnKeypadClick(OnKeypadClick(ds, key), backspace) == ds
  {
    assert (ds + [key])[..|ds|] == ds;
  }

  /** Retyping the digit a backspace removed restores a buffer the keypad built. */
  lemma RetypeUndoesBackspace(ds: seq<int>, backspace: int)
    requires ValidEntry(ds) && ds != []
    requires !IsDigitKey(backspace)
    ensures OnKeypadClick(OnKeypadClick(ds, backspace), ds[|ds| - 1]) == ds
  {
    var shorter := ds[..|ds| - 1];
    assert OnKeypadClick(ds, backspace) == shorter;
    assert AcceptsDigit(shorter, ds[|ds| - 1]);
    assert shorter + [ds[|ds| - 1]] == ds;
  }

  /** A list of `n` zeros. */
  function Zeros(n: nat): (r: seq<int>)
    ensures |r| == n && forall i :: 0 <= i < n ==> r[i] == 0
  {
    seq(n, _ => 0)
  }

  /** `s` back to front, as Kotlin's `asReversed` view presents it. */
  function Reverse(s: seq<int>): (r: seq<int>)
    ensures |r| == |s|
    ensures forall i :: 0 <= i < |s| ==> r[i] == s[|s| - 1 - i]
  {
    if s == [] then [] else Reverse(s[1..]) + [s[0]]
  }

  /** Kotlin's `getOrElse(i) { 0 }`: the element at `i`, or 0 when `i` is out of range. */
  function GetOrZero(s: seq<int>, i: int): int {
    if 0 <= i < |s| then s[i] else 0
  }

  /**
   A two-digit group read from a reversed buffer: units at `fromIndex`, tens
   after it, and a position past the end counts as 0. Over digits 0..9 the
   group is a number from 0 to 99.
   */
  function GetValue(digits: seq<int>, fromIndex: int): (r: int)
    ensures 0 <= fromIndex && fromIndex + 1 < |digits| ==> r == 10 * digits[fromIndex + 1] + digits[fromIndex]
    ensures 0 <= fromIndex && fromIndex + 1 == |digits| ==> r == digits[fromIndex]
    ensures 0 <= fromIndex && fromIndex >= |digits| ==> r == 0
    ensures (forall i :: 0 <= i < |digits| ==> IsDigitKey(digits[i])) ==> 0 <= r <= 99
  {
    GetOrZero(digits, fromIndex) + 10 * GetOrZero(digits, fromIndex + 1)
  }

  /** The seconds, minutes and hours contributions of a buffer, each already in seconds. */
  datatype TimeValues = TimeValues(first: int, second: int, third: int)

  /**
   The three contributions are the SS group, 60 times the MM group and 3600
   times the HH group of the buffer read as zero-padded HHMMSS.
   */
  function GetTimeValues(digits: seq<int>): (r: TimeValues)
    ensures r.first == SecondsGroup(digits)
    ensures r.second == 60 * MinutesGroup(digits)
    ensures r.third == 3600 * HoursGroup(digits)
  {
    ReversedIsWindow(digits, 0);
    ReversedIsWindow(digits, 1);
    ReversedIsWindow(digits, 2);
    ReversedIsWindow(digits, 3);
    ReversedIsWindow(digits, 4);
    ReversedIsWindow(digits, 5);
    var reversed := Reverse(digits);
    TimeValues(GetValue(reversed, 0), 60 * GetValue(reversed, 2), 3600 * GetValue(reversed, 4))
  }

  /**
   The six positions HHMMSS the buffer is read as: the buffer left-padded with
   zeros to six digits (or its last six digits, should it ever be longer).
   */
  function Window(ds: seq<int>): (w: seq<int>)
    ensures |w| == MaxDigitsLen
  {
    if |ds| >= MaxDigitsLen then ds[|ds| - MaxDigitsLen..] else Zeros(MaxDigitsLen - |ds|) + ds
  }

  /** The number written by the two digits of `w` starting at `i`. */
  function GroupAt(w: seq<int>, i: nat): int
    requires i + 1 < |w|
  {
    10 * w[i] + w[i + 1]
  }

  function HoursGroup(ds: seq<int>): int { GroupAt(Window(ds), 0) }
  function MinutesGroup(ds: seq<int>): int { GroupAt(Window(ds), 2) }
  function SecondsGroup(ds: seq<int>): int { GroupAt(Window(ds), 4) }

  /** Position `i` of the reversed buffer is position 5 - i of the HHMMSS window. */
  lemma ReversedIsWindow(ds: seq<int>, i: nat)
    requires i < MaxDigitsLen
    ensures GetOrZero(Reverse(ds), i) == Window(ds)[MaxDigitsLen - 1 - i]
  {
  }

  /**
   The seconds a fresh start seeds the timer with: HH hours, MM minutes and SS
   seconds of the zero-padded buffer, with no range check on MM or SS. For a
   buffer the keypad built this is within 99h 99m 99s, and it is positive
   exactly when something was typed.
   */
  function UpdateSecondsRemaining(digits: seq<int>): (r: int)
    ensures r == 3600 * HoursGroup(digits) + 60 * MinutesGroup(digits) + SecondsGroup(digits)
    ensures ValidEntry(digits) ==> 0 <= r <= MaxEntrySeconds
    ensures ValidEntry(digits) ==> (r > 0 <==> digits != [])
  {
    ValidEntryWindow(digits);
    var values := GetTimeValues(digits);
    values.first + values.second + values.third
  }

  /** The window of a keyed buffer holds digits, and a nonzero one as soon as anything was typed. */
  lemma ValidEntryWindow(ds: seq<int>)
    ensures ValidEntry(ds) ==> forall i :: 0 <= i < MaxDigitsLen ==> IsDigitKey(Window(ds)[i])
    ensures ValidEntry(ds) && ds != [] ==> Window(ds)[MaxDigitsLen - |ds|] != 0
    ensures ds == [] ==> forall i :: 0 <= i < MaxDigitsLen ==> Window(ds)[i] == 0
  {
  }
}
