/**
 * The two display helpers: `formatTime`, which renders a number of seconds as
 * "MM:SS" with JavaScript's number semantics, and `getRowClassName`, which
 * picks a row highlight from the remaining time of a running timer.
 */
module Display {
  import opened Options
  import opened Timers

  predicate IsDigit(c: char) {
    '0' <= c <= '9'
  }

  predicate AllDigits(s: string) {
    forall i :: 0 <= i < |s| ==> IsDigit(s[i])
  }

  function DigitValue(c: char): int {
    c as int - '0' as int
  }

  function DigitChar(d: nat): (c: char)
    requires d < 10
    ensures IsDigit(c) && DigitValue(c) == d
  {
    ('0' as int + d) as char
  }

  /** `n.toString()` for a non-negative integer: its decimal digits. */
  function NatToDecimal(n: nat): (s: string)
    ensures 1 <= |s| && AllDigits(s)
    ensures |s| == 1 <==> n < 10
    ensures n >= 10 ==> s[0] != '0'
    decreases n
  {
    if n < 10 then [DigitChar(n)] else NatToDecimal(n / 10) + [DigitChar(n % 10)]
  }

  /** `n.toString()` for any integer: a minus sign in front of the digits of a negative one. */
  function IntToDecimal(n: int): (s: string)
    ensures 1 <= |s|
    ensures AllDigits(s) <==> n >= 0
    ensures n < 0 ==> s[0] == '-' && s[1..] == NatToDecimal(-n)
    ensures n >= 0 ==> s == NatToDecimal(n)
  {
    if n < 0 then
      var s := "-" + NatToDecimal(-n);
      assert !IsDigit(s[0]);
      assert s[1..] == NatToDecimal(-n);
      s
    else NatToDecimal(n)
  }

  /** The value of a string read as decimal digits, most significant first. */
  function DecimalValue(s: string): int
    decreases |s|
  {
    if s == [] then 0 else DecimalValue(s[..|s| - 1]) * 10 + DigitValue(s[|s| - 1])
  }

  /** Reading back the digits of a number gives the number. */
  lemma {:induction false} DecimalRoundTrip(n: nat)
    ensures DecimalValue(NatToDecimal(n)) == n
    decreases n
  {
    if n >= 10 {
      var s := NatToDecimal(n);
      DecimalRoundTrip(n / 10);
      assert s[..|s| - 1] == NatToDecimal(n / 10);
    }
  }

  /** A leading zero does not change the value of a digit string. */
  lemma {:induction false} LeadingZeroValue(s: string)
    ensures DecimalValue(['0'] + s) == DecimalValue(s)
    decreases |s|
  {
    if s != [] {
      var t := ['0'] + s;
      assert t[..|t| - 1] == ['0'] + s[..|s| - 1];
      LeadingZeroValue(s[..|s| - 1]);
    }
  }

  /** `s.padStart(width, fill)` for a one-character fill. */
  function PadStart(s: string, width: nat, fill: char): (r: string)
    ensures |r| == if |s| >= width then |s| else width
    decreases width - |s|
  {
    if |s| >= width then s else PadStart([fill] + s, width, fill)
  }

  /** Padding puts fill characters in front of the text and nothing else. */
  lemma {:induction false} PadStartContent(s: string, width: nat, fill: char)
    ensures var r := PadStart(s, width, fill);
      && r[|r| - |s|..] == s
      && forall i :: 0 <= i < |r| - |s| ==> r[i] == fill
    decreases width - |s|
  {
    if |s| < width {
      var t := [fill] + s;
      PadStartContent(t, width, fill);
      var r := PadStart(t, width, fill);
      assert r[|r| - |t|..] == t;
      assert r[|r| - |s|..] == t[1..];
      forall i | 0 <= i < |r| - |s| ensures r[i] == fill {
        if i == |r| - |t| { assert r[i] == t[0]; }
      }
    }
  }

  /** Padding a digit string with zeros keeps it a digit string of the same value. */
  lemma {:induction false} ZeroPaddedValue(s: string, width: nat)
    requires AllDigits(s)
    ensures AllDigits(PadStart(s, width, '0')) && DecimalValue(PadStart(s, width, '0')) == DecimalValue(s)
    decreases width - |s|
  {
    if |s| < width {
      var t := ['0'] + s;
      assert AllDigits(t) by {
        forall i | 0 <= i < |t| ensures IsDigit(t[i]) {
          if i > 0 { assert t[i] == s[i - 1]; }
        }
      }
      LeadingZeroValue(s);
      ZeroPaddedValue(t, width);
    }
  }

  /** JavaScript's `a % 60`: the remainder takes the sign of `a`. */
  function JsRem60(a: int): (r: int)
    ensures a >= 0 ==> 0 <= r < 60
    ensures a < 0 ==> -60 < r <= 0
    ensures (a - r) % 60 == 0
  {
    if a >= 0 then a % 60 else -((-a) % 60)
  }

  /**
   * `n.toString().padStart(2, '0')`: at least two characters, exactly two
   * for a number from 0 to 99.
   */
  function Pad2(n: int): (r: string)
    ensures |r| >= 2
    ensures 0 <= n < 100 ==> |r| == 2
  {
    var s := IntToDecimal(n);
    assert 0 <= n < 100 ==> |s| <= 2 by {
      if 10 <= n < 100 {
        assert s == NatToDecimal(n / 10) + [DigitChar(n % 10)];
        assert |NatToDecimal(n / 10)| == 1;
      }
    }
    PadStart(s, 2, '0')
  }

  /** A padded non-negative number is a digit string that reads back as the number. */
  lemma Pad2OfNat(n: nat)
    ensures AllDigits(Pad2(n)) && DecimalValue(Pad2(n)) == n
  {
    assert IntToDecimal(n) == NatToDecimal(n);
    ZeroPaddedValue(NatToDecimal(n), 2);
    DecimalRoundTrip(n);
  }

  /**
   * `formatTime(seconds)`: minutes `Math.floor(seconds / 60)` and seconds
   * `seconds % 60`, each converted with `toString` and left-padded with '0'
   * to two characters, joined by ':'.
   */
  function FormatTime(seconds: int): (r: string)
    ensures |r| >= 5
    ensures seconds >= 0 ==> r[|r| - 3] == ':'
  {
    Pad2(seconds / 60) + ":" + Pad2(JsRem60(seconds))
  }

  /** Division and JavaScript remainder by 60 of a non-negative count, in linear terms. */
  lemma DivMod60(seconds: nat)
    ensures 0 <= seconds / 60 && 0 <= seconds % 60 < 60
    ensures seconds == seconds / 60 * 60 + seconds % 60
    ensures seconds < 6000 ==> seconds / 60 < 100
    ensures JsRem60(seconds) == seconds % 60
  {
  }

  /** Two digit strings joined by ':', the second of two digits: the shape of a clock text. */
  lemma ClockShape(a: string, b: string)
    requires |a| >= 2 && AllDigits(a) && |b| == 2 && AllDigits(b)
    ensures var r := a + ":" + b;
      && |r| >= 5 && r[|r| - 3] == ':'
      && (forall i :: 0 <= i < |r| && i != |r| - 3 ==> IsDigit(r[i]))
      && (|a| == 2 ==> |r| == 5)
  {
    var r := a + ":" + b;
    forall i | 0 <= i < |r| && i != |r| - 3 ensures IsDigit(r[i]) {
      if i < |a| { assert r[i] == a[i]; } else { assert r[i] == b[i - |a| - 1]; }
    }
  }

  /**
   * Reads a clock text "M...M:SS" back into seconds: digits, a ':', and two
   * digits below 60.
   */
  function ParseClock(s: string): Option<int> {
    if |s| >= 4 && s[|s| - 3] == ':' && AllDigits(s[..|s| - 3]) && AllDigits(s[|s| - 2..])
       && DecimalValue(s[|s| - 2..]) < 60
    then Some(DecimalValue(s[..|s| - 3]) * 60 + DecimalValue(s[|s| - 2..]))
    else None
  }

  /** A clock text assembled from a digit string and two digits reads back as minutes times 60 plus seconds. */
  lemma ParseClockOfParts(head: string, tail: string)
    requires 1 <= |head| && AllDigits(head)
    requires |tail| == 2 && AllDigits(tail) && DecimalValue(tail) < 60
    ensures ParseClock(head + ":" + tail) == Some(DecimalValue(head) * 60 + DecimalValue(tail))
  {
    var r := head + ":" + tail;
    assert r[..|r| - 3] == head;
    assert r[|r| - 2..] == tail;
  }

  /** Two zero-padded counts: digits reading back as the counts. */
  lemma PaddedParts(mins: nat, secs: nat)
    ensures AllDigits(Pad2(mins)) && DecimalValue(Pad2(mins)) == mins
    ensures AllDigits(Pad2(secs)) && DecimalValue(Pad2(secs)) == secs
  {
    Pad2OfNat(mins);
    Pad2OfNat(secs);
  }

  /**
   * A digit string and two digits below 60, joined by ':', have the clock
   * shape and read back as the minutes and seconds they spell.
   */
  lemma ClockOfDigits(a: string, b: string, mins: nat, secs: nat)
    requires |a| >= 2 && AllDigits(a) && DecimalValue(a) == mins
    requires |b| == 2 && AllDigits(b) && DecimalValue(b) == secs && secs < 60
    ensures var r := a + ":" + b;
      && |r| >= 5 && r[|r| - 3] == ':'
      && (forall i :: 0 <= i < |r| && i != |r| - 3 ==> IsDigit(r[i]))
      && (|a| == 2 ==> |r| == 5)
      && ParseClock(r) == Some(mins * 60 + secs)
  {
    ClockShape(a, b);
    ParseClockOfParts(a, b);
  }

  /**
   * For a non-negative count the clock text is all digits but for one ':'
   * three characters from the end, and below 100 minutes it is exactly five
   * characters long.
   */
  lemma FormatTimeShape(seconds: nat)
    ensures var r := FormatTime(seconds);
      && |r| >= 5 && r[|r| - 3] == ':'
      && (forall i :: 0 <= i < |r| && i != |r| - 3 ==> IsDigit(r[i]))
      && (seconds < 6000 ==> |r| == 5)
  {
    DivMod60(seconds);
    PaddedParts(seconds / 60, seconds % 60);
    ClockOfDigits(Pad2(seconds / 60), Pad2(seconds % 60), seconds / 60, seconds % 60);
  }

  /** Every non-negative count of seconds is recovered from its "MM:SS" text. */
  lemma FormatTimeRoundTrip(seconds: nat)
    ensures ParseClock(FormatTime(seconds)) == Some(seconds)
  {
    DivMod60(seconds);
    var mins, secs := seconds / 60, seconds % 60;
    assert FormatTime(seconds) == Pad2(mins) + ":" + Pad2(secs);
    PaddedParts(mins, secs);
    ParseClockOfParts(Pad2(mins), Pad2(secs));
  }

  const RED_TIER := "animate-pulse bg-red-300 font-bold"
  const YELLOW_TIER := "animate-pulse bg-yellow-300 font-bold"

  /**
   * `getRowClassName(timer)`: no highlight unless the timer runs; red at a
   * minute or less, yellow above a minute up to three minutes, none above.
   */
  function RowClassName(t: Timer): (r: string)
    ensures r == RED_TIER <==> t.isRunning && t.timeLeft <= 60
    ensures r == YELLOW_TIER <==> t.isRunning && 60 < t.timeLeft <= 180
    ensures r == "" <==> !t.isRunning || t.timeLeft > 180
  {
    if !t.isRunning then ""
    else if t.timeLeft <= 60 then RED_TIER
    else if t.timeLeft <= 180 then YELLOW_TIER
    else ""
  }

  /** How urgent a highlight is: none, yellow, red. */
  function Urgency(className: string): nat {
    if className == RED_TIER then 2 else if className == YELLOW_TIER then 1 else 0
  }

  /** Of two running timers, the one with less time left is highlighted at least as urgently. */
  lemma UrgencyIsMonotone(a: Timer, b: Timer)
    requires a.isRunning && b.isRunning && a.timeLeft <= b.timeLeft
    ensures Urgency(RowClassName(a)) >= Urgency(RowClassName(b))
  {
  }
}
