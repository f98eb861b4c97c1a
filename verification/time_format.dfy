/**
 The two clock strings the timer screen shows: one built from a number of
 seconds, one built from the raw keyed digits. The hour, minute and second
 unit labels come from string resources and are opaque parameters here.
 */
module TimeFormat {
  import opened DigitEntry

  /** The unit labels placed after each two-digit group. */
  datatype Labels = Labels(hour: string, minute: string, second: string)

  /** The common shape of both strings: `HH<h>:MM<m>:SS<s>`. */
  function Layout(hh: string, mm: string, ss: string, labels: Labels): string {
    hh + labels.hour + ":" + mm + labels.minute + ":" + ss + labels.second
  }

  /** Two layouts whose groups have the same lengths agree only when every group does. */
  lemma LayoutInjective(a: string, b: string, c: string, a': string, b': string, c': string, labels: Labels)
    requires |a| == |a'| && |b| == |b'| && |c| == |c'|
    requires Layout(a, b, c, labels) == Layout(a', b', c', labels)
    ensures a == a' && b == b' && c == c'
  {
    var x := Layout(a, b, c, labels);
    var y := Layout(a', b', c', labels);
    var bStart := |a| + |labels.hour| + 1;
    var cStart := bStart + |b| + |labels.minute| + 1;
    assert x[..|a|] == a && y[..|a|] == a';
    assert x[bStart..bStart + |b|] == b && y[bStart..bStart + |b|] == b';
    assert x[cStart..cStart + |c|] == c && y[cStart..cStart + |c|] == c';
  }

  // ---- decimal text ----

  predicate IsDecimal(s: string) {
    forall i :: 0 <= i < |s| ==> '0' <= s[i] <= '9'
  }

  function DigitChar(d: int): (c: char)
    requires IsDigitKey(d)
    ensures '0' <= c <= '9' && c as int - '0' as int == d
  {
    ('0' as int + d) as char
  }

  /** The number a string of decimal characters denotes, most significant first. */
  function DecimalValue(s: string): nat
    requires IsDecimal(s)
  {
    if s == [] then 0 else 10 * DecimalValue(s[..|s| - 1]) + (s[|s| - 1] as int - '0' as int)
  }

  /** Kotlin's `"$n"` for a non-negative number: its shortest decimal text. */
  function NatToString(n: nat): (r: string)
    ensures IsDecimal(r) && |r| >= 1
    ensures |r| > 1 ==> r[0] != '0'
    ensures n < 10 <==> |r| == 1
    ensures n < 100 <==> |r| <= 2
  {
    if n < 10 then [DigitChar(n)] else NatToString(n / 10) + [DigitChar(n % 10)]
  }

  /** Reading the decimal text of `n` gives back `n`. */
  lemma {:induction false} NatToStringRoundTrip(n: nat)
    ensures DecimalValue(NatToString(n)) == n
  {
    if n >= 10 {
      var r := NatToString(n);
      assert r[..|r| - 1] == NatToString(n / 10);
      NatToStringRoundTrip(n / 10);
    }
  }

  /** Kotlin's `"$i"` for any Int: a minus sign before the decimal text of a negative number. */
  function IntToString(i: int): (r: string)
    ensures i >= 0 ==> r == NatToString(i) && IsDecimal(r) && DecimalValue(r) == i
    ensures i < 0 ==> |r| >= 2 && r[0] == '-' && r[1..] == NatToString(-i)
  {
    NatToStringRoundTrip(if i >= 0 then i else -i);
    if i >= 0 then NatToString(i) else "-" + NatToString(-i)
  }

  /** Kotlin's `padStart(len, c)`: `c` repeated on the left up to length `len`, never truncating. */
  function PadStart(s: string, len: nat, c: char): (r: string)
    ensures |r| == if |s| >= len then |s| else len
    ensures r[|r| - |s|..] == s
    ensures forall i :: 0 <= i < |r| - |s| ==> r[i] == c
  {
    if |s| >= len then s else seq(len - |s|, _ => c) + s
  }

  /** Zeros on the left do not change the value of decimal text. */
  lemma {:induction false} LeadingZerosValue(k: nat, s: string)
    requires IsDecimal(s)
    ensures IsDecimal(seq(k, _ => '0') + s)
    ensures DecimalValue(seq(k, _ => '0') + s) == DecimalValue(s)
    decreases |s| + k
  {
    var z: string := seq(k, _ => '0');
    var t := z + s;
    if s == [] {
      assert t == z;
      if k > 0 {
        var shorter: string := seq(k - 1, _ => '0');
        assert t[..|t| - 1] == shorter + s;
        LeadingZerosValue(k - 1, s);
      }
    } else {
      assert t[..|t| - 1] == z + s[..|s| - 1];
      LeadingZerosValue(k, s[..|s| - 1]);
    }
  }

  /**
   The two-character field of the clock string: the decimal text of `n`
   left-padded with '0' to at least two characters. Numbers of 100 and more,
   which only hours reach, keep all their digits.
   */
  function Pad(n: nat): (r: string)
    ensures IsDecimal(r) && DecimalValue(r) == n
    ensures |r| == if n < 100 then 2 else |NatToString(n)|
    ensures n >= 100 ==> |r| >= 3
  {
    var text := NatToString(n);
    NatToStringRoundTrip(n);
    PadStartKeepsValue(text, 2);
    PadStart(text, 2, '0')
  }

  /** Padding decimal text with '0' keeps it decimal text of the same value. */
  lemma PadStartKeepsValue(text: string, len: nat)
    requires IsDecimal(text)
    ensures IsDecimal(PadStart(text, len, '0')) && DecimalValue(PadStart(text, len, '0')) == DecimalValue(text)
  {
    var k := if |text| >= len then 0 else len - |text|;
    LeadingZerosValue(k, text);
    assert PadStart(text, len, '0') == seq(k, _ => '0') + text;
  }

  /** An hours, minutes and seconds split of a duration. */
  datatype Hms = Hms(hours: nat, minutes: nat, seconds: nat)

  /** `t` is a whole number of hours plus fewer than 60 minutes plus fewer than 60 seconds. */
  predicate IsClockSplit(t: nat, d: Hms) {
    3600 * d.hours + 60 * d.minutes + d.seconds == t && d.minutes < 60 && d.seconds < 60
  }

  /** A duration has exactly one clock split. */
  lemma ClockSplitUnique(t: nat, d: Hms, e: Hms)
    requires IsClockSplit(t, d) && IsClockSplit(t, e)
    ensures d == e
  {
    DivModOfClockSplit(t, d);
    DivModOfClockSplit(t, e);
  }

  /**
   The hours/minutes/seconds of the seconds-based clock string: whole hours
   are taken off first, then whole minutes, and what is left is seconds.
   */
  function SplitSeconds(t: nat): (d: Hms)
    ensures IsClockSplit(t, d)
    ensures d.hours == t / 3600 && d.minutes == (t % 3600) / 60 && d.seconds == t % 60
  {
    var hours := if t >= 3600 then t / 3600 else 0;
    var afterHours := t - hours * 3600;
    var minutes := if afterHours >= 60 then afterHours / 60 else 0;
    var seconds := afterHours - minutes * 60;
    assert afterHours == t % 3600;
    assert seconds == afterHours % 60;
    var d := Hms(hours, minutes, seconds);
    assert IsClockSplit(t, d);
    DivModOfClockSplit(t, d);
    d
  }

  /** A number written as `q` whole hours and a remainder below an hour divides as expected. */
  lemma DivModByHour(t: nat, q: nat, rem: nat)
    requires rem < 3600 && t == 3600 * q + rem
    ensures t / 3600 == q && t % 3600 == rem
  {
  }

  /** A number written as `q` whole minutes and a remainder below a minute divides as expected. */
  lemma DivModByMinute(t: nat, q: nat, rem: nat)
    requires rem < 60 && t == 60 * q + rem
    ensures t / 60 == q && t % 60 == rem
  {
  }

  /** The clock split of `t` is given by division and remainder by 3600 and 60. */
  lemma DivModOfClockSplit(t: nat, d: Hms)
    requires IsClockSplit(t, d)
    ensures d.hours == t / 3600 && d.minutes == (t % 3600) / 60 && d.seconds == t % 60
  {
    var belowHour := 60 * d.minutes + d.seconds;
    DivModByHour(t, d.hours, belowHour);
    DivModByMinute(belowHour, d.minutes, d.seconds);
    DivModByMinute(t, 60 * d.hours + d.minutes, d.seconds);
  }

  /**
   The clock string for a number of seconds: hours, minutes and seconds
   each padded to two digits and followed by its unit label.
   */
  function SecondsString(t: nat, labels: Labels): (r: string)
    ensures exists d :: IsClockSplit(t, d) && r == Layout(Pad(d.hours), Pad(d.minutes), Pad(d.seconds), labels)
  {
    var d := SplitSeconds(t);
    Layout(Pad(d.hours), Pad(d.minutes), Pad(d.seconds), labels)
  }

  // ---- the digit preview ----

  /**
   Kotlin's `joinToString(separator = "")` over a list of Ints: every element
   contributes at least one character, and a digit exactly one.
   */
  function JoinToString(ds: seq<int>): (r: string)
    ensures |r| >= |ds|
    ensures (forall i :: 0 <= i < |ds| ==> IsDigitKey(ds[i])) ==> |r| == |ds|
  {
    if ds == [] then [] else JoinToString(ds[..|ds| - 1]) + IntToString(ds[|ds| - 1])
  }

  /** `StringBuilder.insert(i, t)`. */
  function Insert(s: string, i: nat, t: string): (r: string)
    requires i <= |s|
    ensures |r| == |s| + |t|
    ensures r[..i] == s[..i] && r[i..i + |t|] == t && r[i + |t|..] == s[i..]
  {
    s[..i] + t + s[i..]
  }

  /** The keyed digits joined and left-padded with '0' to six characters. */
  function PaddedDigits(ds: seq<int>): (p: string)
    ensures |p| >= MaxDigitsLen
  {
    PadStart(JoinToString(ds), MaxDigitsLen, '0')
  }

  /**
   Appending the second label, inserting the minute label at 4 and then the
   hour label at 2 cuts six characters into HH, MM and SS: the later insertion
   is nearer the front, so both positions still refer to the original text.
   */
  lemma InsertLabels(p: string, labels: Labels)
    requires |p| >= MaxDigitsLen
    ensures Insert(Insert(p + labels.second, 4, labels.minute + ":"), 2, labels.hour + ":")
         == Layout(p[..2], p[2..4], p[4..], labels)
  {
    var withSeconds := p + labels.second;
    assert withSeconds[..4] == p[..4];
    assert withSeconds[4..] == p[4..] + labels.second;
    var withMinutes := Insert(withSeconds, 4, labels.minute + ":");
    assert withMinutes == p[..4] + (labels.minute + ":") + (p[4..] + labels.second);
    assert withMinutes[..2] == p[..2];
    assert withMinutes[2..] == p[2..4] + (labels.minute + ":") + (p[4..] + labels.second);
  }

  /** The clock string for the keyed digits, cut from their padded text. */
  function DigitsString(ds: seq<int>, labels: Labels): (r: string)
    ensures var p := PaddedDigits(ds); r == Layout(p[..2], p[2..4], p[4..], labels)
  {
    var p := PaddedDigits(ds);
    InsertLabels(p, labels);
    Insert(Insert(p + labels.second, 4, labels.minute + ":"), 2, labels.hour + ":")
  }

  /** A one-character decimal text denotes its digit. */
  lemma SingleDigitValue(c: char)
    requires '0' <= c <= '9'
    ensures DecimalValue([c]) == c as int - '0' as int
  {
    assert [c][..0] == [];
  }

  /** A two-character decimal text denotes ten times its first digit plus its second. */
  lemma TwoDigitValue(s: string)
    requires |s| == 2 && IsDecimal(s)
    ensures DecimalValue(s) == 10 * (s[0] as int - '0' as int) + (s[1] as int - '0' as int)
  {
    assert s[..1] == [s[0]];
    SingleDigitValue(s[0]);
  }

  /** The two characters of a number below 100, tens first. */
  function TwoDigits(n: nat): (r: string)
    requires n < 100
    ensures |r| == 2 && IsDecimal(r) && DecimalValue(r) == n
  {
    var r := [DigitChar(n / 10), DigitChar(n % 10)];
    TwoDigitValue(r);
    r
  }

  /** Two-character decimal texts with the same value are the same text. */
  lemma TwoDigitTextUnique(p: string, t: string)
    requires |p| == 2 && |t| == 2 && IsDecimal(p) && IsDecimal(t)
    requires DecimalValue(p) == DecimalValue(t)
    ensures p == t
  {
    TwoDigitValue(p);
    TwoDigitValue(t);
    var a, b := p[0] as int - '0' as int, p[1] as int - '0' as int;
    var c, d := t[0] as int - '0' as int, t[1] as int - '0' as int;
    assert a == DecimalValue(p) / 10 && c == DecimalValue(t) / 10;
    assert p == [p[0], p[1]] && t == [t[0], t[1]];
  }

  /** Below 100, the padded field is exactly the two digits. */
  lemma PadIsTwoDigits(n: nat)
    requires n < 100
    ensures Pad(n) == TwoDigits(n)
  {
    TwoDigitTextUnique(Pad(n), TwoDigits(n));
  }

  /** The text of the keypad digits is one character per digit. */
  lemma {:induction false} JoinDigits(ds: seq<int>)
    requires forall i :: 0 <= i < |ds| ==> IsDigitKey(ds[i])
    ensures |JoinToString(ds)| == |ds|
    ensures forall i :: 0 <= i < |ds| ==> JoinToString(ds)[i] == DigitChar(ds[i])
  {
    if ds != [] {
      JoinDigits(ds[..|ds| - 1]);
      var last := ds[|ds| - 1];
      assert IntToString(last) == [DigitChar(last)];
    }
  }

  /** One position of the padded text of a keyed buffer is the digit at that position of its window. */
  lemma PaddedDigitAt(ds: seq<int>, i: nat)
    requires ValidEntry(ds) && i < MaxDigitsLen
    ensures IsDigitKey(Window(ds)[i])
    ensures |PaddedDigits(ds)| == MaxDigitsLen && PaddedDigits(ds)[i] == DigitChar(Window(ds)[i])
  {
    JoinDigits(ds);
    var text := JoinToString(ds);
    var k := MaxDigitsLen - |ds|;
    var p := PaddedDigits(ds);
    var w := Window(ds);
    assert w == Zeros(k) + ds;
    if i >= k {
      assert p[k..] == text;
      assert p[i] == p[k..][i - k];
      assert w[i] == ds[i - k];
    } else {
      assert w[i] == 0;
    }
  }

  /** For a buffer the keypad built, the padded text is the HHMMSS window digit by digit. */
  lemma PaddedDigitsOfValidEntry(ds: seq<int>)
    requires ValidEntry(ds)
    ensures forall i :: 0 <= i < MaxDigitsLen ==> IsDigitKey(Window(ds)[i])
    ensures var w := Window(ds);
      PaddedDigits(ds)
      == [DigitChar(w[0]), DigitChar(w[1]), DigitChar(w[2]), DigitChar(w[3]), DigitChar(w[4]), DigitChar(w[5])]
  {
    ValidEntryWindow(ds);
    PaddedDigitAt(ds, 0);
    PaddedDigitAt(ds, 1);
    PaddedDigitAt(ds, 2);
    PaddedDigitAt(ds, 3);
    PaddedDigitAt(ds, 4);
    PaddedDigitAt(ds, 5);
  }

  /** Two digits side by side are the two-character text of the number they spell. */
  lemma TwoDigitsOfPair(a: int, b: int)
    requires IsDigitKey(a) && IsDigitKey(b)
    ensures TwoDigits(10 * a + b) == [DigitChar(a), DigitChar(b)]
  {
    assert (10 * a + b) / 10 == a && (10 * a + b) % 10 == b;
  }

  /** A two-digit group of the window is written as its two digit characters. */
  lemma GroupText(w: seq<int>, i: nat)
    requires i + 1 < |w| && IsDigitKey(w[i]) && IsDigitKey(w[i + 1])
    ensures 0 <= GroupAt(w, i) < 100
    ensures TwoDigits(GroupAt(w, i)) == [DigitChar(w[i]), DigitChar(w[i + 1])]
  {
    TwoDigitsOfPair(w[i], w[i + 1]);
  }

  /** Six digit characters cut into the two-digit texts of the three groups they spell. */
  lemma GroupsOfText(p: string, w: seq<int>)
    requires |w| == MaxDigitsLen && forall i :: 0 <= i < MaxDigitsLen ==> IsDigitKey(w[i])
    requires p == [DigitChar(w[0]), DigitChar(w[1]), DigitChar(w[2]), DigitChar(w[3]), DigitChar(w[4]), DigitChar(w[5])]
    ensures 0 <= GroupAt(w, 0) < 100 && 0 <= GroupAt(w, 2) < 100 && 0 <= GroupAt(w, 4) < 100
    ensures p[..2] == TwoDigits(GroupAt(w, 0))
    ensures p[2..4] == TwoDigits(GroupAt(w, 2))
    ensures p[4..] == TwoDigits(GroupAt(w, 4))
  {
    GroupText(w, 0);
    GroupText(w, 2);
    GroupText(w, 4);
  }

  /** For a buffer the keypad built, the padded text cuts into the two-digit HH, MM and SS groups. */
  lemma PaddedGroups(ds: seq<int>)
    requires ValidEntry(ds)
    ensures 0 <= HoursGroup(ds) < 100 && 0 <= MinutesGroup(ds) < 100 && 0 <= SecondsGroup(ds) < 100
    ensures PaddedDigits(ds)[..2] == TwoDigits(HoursGroup(ds))
    ensures PaddedDigits(ds)[2..4] == TwoDigits(MinutesGroup(ds))
    ensures PaddedDigits(ds)[4..] == TwoDigits(SecondsGroup(ds))
  {
    PaddedDigitsOfValidEntry(ds);
    GroupsOfText(PaddedDigits(ds), Window(ds));
  }

  /** For a buffer the keypad built, the preview is the HH, MM and SS groups, two digits each. */
  lemma DigitsStringOfValidEntry(ds: seq<int>, labels: Labels)
    requires ValidEntry(ds)
    ensures 0 <= HoursGroup(ds) < 100 && 0 <= MinutesGroup(ds) < 100 && 0 <= SecondsGroup(ds) < 100
    ensures DigitsString(ds, labels)
         == Layout(TwoDigits(HoursGroup(ds)), TwoDigits(MinutesGroup(ds)), TwoDigits(SecondsGroup(ds)), labels)
  {
    PaddedGroups(ds);
  }
}
