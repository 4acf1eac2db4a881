/** The countdown of the page (Timer.js): minutes and seconds counting down once a
    second while running, the editable default the reset returns to, and the red
    flash once the time is out. The one-second interval that drives the tick is
    not modelled: each call of Tick is one firing of it. */
module Countdown {

  import opened Basics

  // ---------------------------------------------------------------------------
  // Time arithmetic

  /** `minutes * 60 + seconds`: the total is zero exactly when the time shows 00:00,
      the point where the countdown stops; with fewer than 60 seconds the time is
      the total's whole minutes and remaining seconds. */
  function TotalSeconds(minutes: nat, seconds: nat): (total: nat)
    ensures total == 0 <==> minutes == 0 && seconds == 0
    ensures seconds < 60 ==> total / 60 == minutes && total % 60 == seconds
  {
    minutes * 60 + seconds
  }

  /** `[Math.floor(total / 60), total % 60]` for a positive total: the time that
      shows total seconds. */
  function FromSeconds(total: nat): (r: (nat, nat))
    ensures r.1 < 60 && TotalSeconds(r.0, r.1) == total
  {
    (total / 60, total % 60)
  }

  /** A shown time is recovered from its total. */
  lemma FromSecondsRoundTrip(minutes: nat, seconds: nat)
    requires seconds < 60
    ensures FromSeconds(TotalSeconds(minutes, seconds)) == (minutes, seconds)
  {
  }

  // ---------------------------------------------------------------------------
  // The timer

  class Timer {
    var minutes: nat
    var seconds: nat
    /** The time the reset returns to; every edit of the time also sets it. */
    var defaultMinutes: nat
    var defaultSeconds: nat
    var isRunning: bool
    var flashRed: bool

    /** Seconds never show 60 or more, neither in the time nor in the default. */
    ghost predicate Valid()
      reads this
    {
      seconds < 60 && defaultSeconds < 60
    }

    /** The state on mount: 1:30, stopped, not flashing. */
    constructor ()
      ensures Valid()
      ensures minutes == 1 && seconds == 30 && defaultMinutes == 1 && defaultSeconds == 30
      ensures !isRunning && !flashRed
    {
      minutes, seconds := 1, 30;
      defaultMinutes, defaultSeconds := 1, 30;
      isRunning, flashRed := false, false;
    }

    /** One firing of the interval, which only exists while the timer runs: a second
        is taken off the time, borrowing a minute at :00; at 0:00 the time stays and
        the display flashes red. */
    method Tick()
      requires Valid() && isRunning
      modifies this
      ensures Valid()
      ensures if old(seconds) > 0 then
                minutes == old(minutes) && seconds == old(seconds) - 1 && flashRed == old(flashRed)
              else if old(minutes) > 0 then
                minutes == old(minutes) - 1 && seconds == 59 && flashRed == old(flashRed)
              else
                minutes == 0 && seconds == 0 && flashRed
      ensures defaultMinutes == old(defaultMinutes) && defaultSeconds == old(defaultSeconds)
      ensures isRunning
      // the total goes down by exactly one second, and stops at zero
      ensures var before := TotalSeconds(old(minutes), old(seconds));
              TotalSeconds(minutes, seconds) == if before == 0 then 0 else before - 1
      ensures flashRed == (old(flashRed) || TotalSeconds(old(minutes), old(seconds)) == 0)
    {
      if seconds > 0 {
        seconds := seconds - 1;
      } else {
        if minutes > 0 {
          minutes := minutes - 1;
          seconds := 59;
        } else {
          flashRed := true;
          seconds := 0;
        }
      }
    }

    /** `incrementMinutes(val)`: the minutes move by val, never below zero, and the
        new time becomes the default. */
    method IncrementMinutes(val: int)
      requires Valid()
      modifies this
      ensures Valid()
      ensures minutes == Max(0, old(minutes) + val) && seconds == old(seconds)
      ensures defaultMinutes == minutes && defaultSeconds == seconds
      ensures !flashRed && isRunning == old(isRunning)
    {
      if flashRed {
        flashRed := false;
      }
      var newM := Max(0, minutes + val);
      minutes := newM;
      defaultMinutes := newM;
      defaultSeconds := seconds;
    }

    /** `incrementSeconds(val)`: the time moves by val seconds, carried into the
        minutes; a total of zero or less clamps the time and the default to 0:00.
        Otherwise the new time becomes the default. */
    method IncrementSeconds(val: int)
      requires Valid()
      modifies this
      ensures Valid()
      ensures var total := TotalSeconds(old(minutes), old(seconds)) + val;
              if total <= 0 then
                minutes == 0 && seconds == 0 && defaultMinutes == 0 && defaultSeconds == 0
              else
                (minutes, seconds) == FromSeconds(total) && TotalSeconds(minutes, seconds) == total
                && defaultMinutes == minutes && defaultSeconds == seconds
      ensures !flashRed && isRunning == old(isRunning)
    {
      if flashRed {
        flashRed := false;
      }
      var totalSeconds := TotalSeconds(minutes, seconds) + val;
      if totalSeconds <= 0 {
        minutes := 0;
        seconds := 0;
        defaultMinutes := 0;
        defaultSeconds := 0;
        return;
      }
      var newM := totalSeconds / 60;
      var newS := totalSeconds % 60;
      minutes := newM;
      seconds := newS;
      defaultMinutes := newM;
      defaultSeconds := newS;
    }

    /** `handleReset()`: the timer stops, stops flashing, and shows the current
        default (the last edited time, not the 1:30 of the mount). */
    method HandleReset()
      requires Valid()
      modifies this
      ensures Valid()
      ensures !isRunning && !flashRed
      ensures minutes == old(defaultMinutes) && seconds == old(defaultSeconds)
      ensures defaultMinutes == old(defaultMinutes) && defaultSeconds == old(defaultSeconds)
    {
      isRunning := false;
      flashRed := false;
      minutes := defaultMinutes;
      seconds := defaultSeconds;
    }

    /** `handleStartPause()`: starts a stopped timer, pauses a running one, and
        clears the flash. */
    method HandleStartPause()
      requires Valid()
      modifies this
      ensures Valid()
      ensures isRunning == !old(isRunning) && !flashRed
      ensures minutes == old(minutes) && seconds == old(seconds)
      ensures defaultMinutes == old(defaultMinutes) && defaultSeconds == old(defaultSeconds)
    {
      if flashRed {
        flashRed := false;
      }
      isRunning := !isRunning;
    }
  }

  // ---------------------------------------------------------------------------
  // The display

  predicate AllDigits(s: string) {
    forall i :: 0 <= i < |s| ==> IsDigit(s[i])
  }

  function Digit(d: nat): (c: char)
    requires d < 10
    ensures IsDigit(c) && c as int - '0' as int == d
  {
    ('0' as int + d) as char
  }

  /** `String(n)` for a non-negative integer: its decimal digits, with no leading
      zero. */
  function DecimalString(n: nat): (s: string)
    ensures |s| >= 1 && AllDigits(s)
    ensures |s| > 1 ==> s[0] != '0'
    ensures n < 10 <==> |s| == 1
    decreases n
  {
    if n < 10 then [Digit(n)] else DecimalString(n / 10) + [Digit(n % 10)]
  }

  /** `s.padStart(width, fill)`: fill characters are put in front up to width. */
  function PadStart(s: string, width: nat, fill: char): (r: string)
    ensures |r| == Max(|s|, width)
    ensures r[|r| - |s|..] == s
    ensures forall i :: 0 <= i < |r| - |s| ==> r[i] == fill
  {
    if |s| >= width then s else seq(width - |s|, _ => fill) + s
  }

  /** `String(n).padStart(2, '0')`: at least two digits. */
  function TwoDigits(n: nat): (r: string)
    ensures |r| >= 2 && AllDigits(r)
  {
    var s := DecimalString(n);
    var r := PadStart(s, 2, '0');
    assert forall i :: 0 <= i < |r| ==> IsDigit(r[i]) by {
      forall i | 0 <= i < |r| ensures IsDigit(r[i]) {
        if i >= |r| - |s| {
          assert r[i] == r[|r| - |s|..][i - (|r| - |s|)] == s[i - (|r| - |s|)];
        }
      }
    }
    r
  }

  /** `formatTime()` on the minutes and seconds shown: each padded to at least two
      digits, joined by ':'. */
  function FormatTime(minutes: nat, seconds: nat): (r: string)
    ensures var k := |TwoDigits(minutes)|;
            k >= 2 && |r| >= k + 3 && r[k] == ':'
            && AllDigits(r[..k]) && AllDigits(r[k + 1..])
  {
    var mm := TwoDigits(minutes);
    var ss := TwoDigits(seconds);
    var r := mm + ":" + ss;
    assert r[..|mm|] == mm && r[|mm| + 1..] == ss;
    r
  }

  /** Below 100 minutes the display is exactly mm:ss, five characters. */
  lemma FormatTimeTwoDigits(minutes: nat, seconds: nat)
    requires minutes < 100 && seconds < 100
    ensures FormatTime(minutes, seconds)
            == [Digit(minutes / 10), Digit(minutes % 10), ':', Digit(seconds / 10), Digit(seconds % 10)]
    ensures |FormatTime(minutes, seconds)| == 5
  {
    FormatDigits(minutes, seconds, minutes / 10, minutes % 10, seconds / 10, seconds % 10);
  }

  lemma FormatDigits(minutes: nat, seconds: nat, mh: nat, ml: nat, sh: nat, sl: nat)
    requires minutes == mh * 10 + ml && mh < 10 && ml < 10
    requires seconds == sh * 10 + sl && sh < 10 && sl < 10
    ensures FormatTime(minutes, seconds) == [Digit(mh), Digit(ml), ':', Digit(sh), Digit(sl)]
  {
    var mm, ss := TwoDigits(minutes), TwoDigits(seconds);
    PadTwoDigits(minutes, mh, ml);
    PadTwoDigits(seconds, sh, sl);
    assert FormatTime(minutes, seconds) == mm + ":" + ss;
    assert mm + ":" + ss == [Digit(mh), Digit(ml), ':', Digit(sh), Digit(sl)];
  }

  lemma PadTwoDigits(n: nat, hi: nat, lo: nat)
    requires n == hi * 10 + lo && hi < 10 && lo < 10
    ensures TwoDigits(n) == [Digit(hi), Digit(lo)]
  {
    assert n / 10 == hi && n % 10 == lo;
    if hi == 0 {
      assert DecimalString(n) == [Digit(lo)];
      assert TwoDigits(n) == ['0'] + [Digit(lo)];
    } else {
      assert DecimalString(hi) == [Digit(hi)];
      assert DecimalString(n) == [Digit(hi), Digit(lo)];
    }
  }

  // ---------------------------------------------------------------------------
  // Reading the display back

  /** The number a string of decimal digits denotes; leading zeros are allowed. */
  function DigitsValue(s: string): nat
    requires AllDigits(s)
  {
    if s == [] then 0
    else DigitsValue(s[..|s| - 1]) * 10 + (s[|s| - 1] as int - '0' as int)
  }

  lemma {:induction false} DecimalStringValue(n: nat)
    ensures DigitsValue(DecimalString(n)) == n
    decreases n
  {
    if n >= 10 {
      var s := DecimalString(n);
      assert s[..|s| - 1] == DecimalString(n / 10);
      DecimalStringValue(n / 10);
    }
  }

  /** Leading zeros do not change the value. */
  lemma {:induction false} LeadingZerosValue(zeros: string, s: string)
    requires forall i :: 0 <= i < |zeros| ==> zeros[i] == '0'
    requires AllDigits(s)
    ensures AllDigits(zeros + s) && DigitsValue(zeros + s) == DigitsValue(s)
    decreases |s|
  {
    if s == [] {
      assert zeros + s == zeros;
      ZerosValue(zeros);
    } else {
      var init := s[..|s| - 1];
      assert (zeros + s)[..|zeros + s| - 1] == zeros + init;
      LeadingZerosValue(zeros, init);
    }
  }

  lemma {:induction false} ZerosValue(zeros: string)
    requires forall i :: 0 <= i < |zeros| ==> zeros[i] == '0'
    ensures AllDigits(zeros) && DigitsValue(zeros) == 0
    decreases |zeros|
  {
    if zeros != [] {
      ZerosValue(zeros[..|zeros| - 1]);
    }
  }

  /** The position of the first c in s, or -1. */
  function Find(s: string, c: char, from: nat := 0): (k: int)
    requires from <= |s|
    ensures k == -1 || (from <= k < |s| && s[k] == c)
    ensures forall j :: from <= j < |s| && (k == -1 || j < k) ==> s[j] != c
    decreases |s| - from
  {
    if from == |s| then -1 else if s[from] == c then from else Find(s, c, from + 1)
  }

  /** Reads "mm:ss" back into minutes and seconds. */
  function ParseTime(t: string): Option<(nat, nat)> {
    var k := Find(t, ':');
    if k < 0 || !AllDigits(t[..k]) || !AllDigits(t[k + 1..]) then None
    else Some((DigitsValue(t[..k]), DigitsValue(t[k + 1..])))
  }

  /** The display shows the time exactly: reading it back gives the minutes and
      seconds, whatever their size. */
  lemma FormatTimeRoundTrip(minutes: nat, seconds: nat)
    ensures ParseTime(FormatTime(minutes, seconds)) == Some((minutes, seconds))
  {
    ParseJoined(TwoDigits(minutes), TwoDigits(seconds));
    TwoDigitsValue(minutes);
    TwoDigitsValue(seconds);
  }

  /** Two digit strings joined by ':' read back as their values. */
  lemma ParseJoined(mm: string, ss: string)
    requires AllDigits(mm) && AllDigits(ss)
    ensures ParseTime(mm + ":" + ss) == Some((DigitsValue(mm), DigitsValue(ss)))
  {
    var t := mm + ":" + ss;
    assert Find(t, ':') == |mm| by {
      forall j | 0 <= j < |mm|
        ensures t[j] != ':'
      {
        assert t[j] == mm[j] && IsDigit(mm[j]);
      }
      assert t[|mm|] == ':';
    }
    assert t[..|mm|] == mm && t[|mm| + 1..] == ss;
  }

  /** The padded digits still denote the number. */
  lemma TwoDigitsValue(n: nat)
    ensures DigitsValue(TwoDigits(n)) == n
  {
    var s := DecimalString(n);
    var r := TwoDigits(n);
    var zeros := r[..|r| - |s|];
    assert r == zeros + s;
    LeadingZerosValue(zeros, s);
    DecimalStringValue(n);
  }
}
