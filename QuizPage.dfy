/** The countdown display of the mock-test page (src/pages/QuizPage.tsx):
    seconds rendered as hours, minutes and seconds separated by colons. */
module QuizPage {
  import opened Decimal

  /** `formatTime(seconds)`. The remaining time is never negative, so the
      JavaScript `Math.floor` and `%` agree with Dafny's `/` and `%`. */
  function FormatTime(seconds: nat): (r: string)
    ensures |r| >= 8 && r[|r| - 6] == ':' && r[|r| - 3] == ':'
  {
    Render(seconds / 3600, (seconds % 3600) / 60, seconds % 60)
  }

  /** The three fields, each at least two digits, joined by colons. */
  function Render(h: nat, m: nat, s: nat): (r: string)
    requires m < 100 && s < 100
    ensures |r| >= 8 && r[|r| - 6] == ':' && r[|r| - 3] == ':'
  {
    Pad2(h) + ":" + Pad2(m) + ":" + Pad2(s)
  }

  /** Reads a rendered time back: everything before the last six characters
      is the hours field, then two minute digits and two second digits. */
  function ParseTime(t: string): nat
    requires |t| >= 8
    requires AllDigits(t[..|t| - 6]) && AllDigits(t[|t| - 5..|t| - 3]) && AllDigits(t[|t| - 2..])
  {
    ParseDigits(t[..|t| - 6]) * 3600 + ParseDigits(t[|t| - 5..|t| - 3]) * 60 + ParseDigits(t[|t| - 2..])
  }

  /** `t` reads back as `n`: its three fields are digits, the minutes and
      seconds are below 60, and parsing gives `n`. */
  predicate ReadsBackAs(t: string, n: nat)
    requires |t| >= 8
  {
    && AllDigits(t[..|t| - 6]) && AllDigits(t[|t| - 5..|t| - 3]) && AllDigits(t[|t| - 2..])
    && ParseDigits(t[|t| - 5..|t| - 3]) < 60
    && ParseDigits(t[|t| - 2..]) < 60
    && ParseTime(t) == n
  }

  /** The three fields are the hours, the minutes below 60 and the seconds
      below 60, and every input is recovered from its rendering, whatever the
      number of hour digits. */
  lemma FormatTimeRoundTrip(seconds: nat)
    ensures ReadsBackAs(FormatTime(seconds), seconds)
  {
    var h, m, s := Decompose(seconds);
    RoundTripFields(h, m, s);
  }

  lemma RoundTripFields(h: nat, m: nat, s: nat)
    requires m < 60 && s < 60
    ensures ReadsBackAs(Render(h, m, s), h * 3600 + m * 60 + s)
  {
    ParseFields(Pad2(h), Pad2(m), Pad2(s));
  }

  /** Parsing a rendering reads each field separately. */
  lemma ParseFields(a: string, b: string, c: string)
    requires |b| == 2 && |c| == 2 && AllDigits(a) && AllDigits(b) && AllDigits(c)
    ensures var t := a + ":" + b + ":" + c;
      && |t| >= 6 && t[..|t| - 6] == a && t[|t| - 5..|t| - 3] == b && t[|t| - 2..] == c
      && (|t| >= 8 ==> ParseTime(t) == ParseDigits(a) * 3600 + ParseDigits(b) * 60 + ParseDigits(c))
  {
    var t := a + ":" + b + ":" + c;
    assert t[..|t| - 6] == a && t[|t| - 5..|t| - 3] == b && t[|t| - 2..] == c;
  }

  lemma Decompose(seconds: nat) returns (h: nat, m: nat, s: nat)
    ensures m < 60 && s < 60 && h * 3600 + m * 60 + s == seconds
    ensures FormatTime(seconds) == Render(h, m, s)
  {
    h, m, s := seconds / 3600, (seconds % 3600) / 60, seconds % 60;
    var r := seconds % 3600;
    assert seconds == (seconds / 3600) * 3600 + r;
    assert r == (r / 60) * 60 + r % 60;
    assert r % 60 == seconds % 60;
  }

  /** Below 100 hours the display is exactly `HH:MM:SS`. */
  lemma FormatTimeShape(seconds: nat)
    requires seconds < 360000
    ensures var t := FormatTime(seconds);
      && |t| == 8 && t[2] == ':' && t[5] == ':'
      && forall i :: 0 <= i < 8 && i != 2 && i != 5 ==> IsDigit(t[i])
  {
    var t := FormatTime(seconds);
    var h := seconds / 3600;
    assert h < 100;
    assert t == Pad2(h) + ":" + Pad2((seconds % 3600) / 60) + ":" + Pad2(seconds % 60);
  }

  /** Hours are not capped: from 100 hours on the hour field grows beyond two
      digits, because padding only ever adds characters. */
  lemma FormatTimeHoursUncapped(seconds: nat)
    requires seconds >= 360000
    ensures |FormatTime(seconds)| > 8
  {
    assert seconds / 3600 >= 100;
  }

  /** Two renderings agree only for equal times. */
  lemma FormatTimeInjective(a: nat, b: nat)
    requires FormatTime(a) == FormatTime(b)
    ensures a == b
  {
    FormatTimeRoundTrip(a);
    FormatTimeRoundTrip(b);
  }
}
