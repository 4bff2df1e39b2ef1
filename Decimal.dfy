/** Decimal rendering of non-negative integers, as `Number.prototype.toString()`
    produces it for integral values, its inverse, and `padStart`. */
module Decimal {

  predicate IsDigit(c: char) { '0' <= c <= '9' }

  predicate AllDigits(s: string) {
    forall i :: 0 <= i < |s| ==> IsDigit(s[i])
  }

  function DigitChar(d: nat): (c: char)
    requires d < 10
    ensures IsDigit(c)
  {
    ('0' as int + d) as char
  }

  function DigitValue(c: char): (d: nat)
    requires IsDigit(c)
    ensures d < 10
  {
    c as int - '0' as int
  }

  /** `n.toString()`: the shortest decimal numeral, without leading zeros. */
  function NatToString(n: nat): (s: string)
    ensures |s| >= 1
    decreases n
  {
    if n < 10 then [DigitChar(n)] else NatToString(n / 10) + [DigitChar(n % 10)]
  }

  /** The value of a string of digits (leading zeros allowed). */
  function ParseDigits(s: string): nat
    requires AllDigits(s)
    decreases |s|
  {
    if |s| == 0 then 0 else ParseDigits(s[..|s| - 1]) * 10 + DigitValue(s[|s| - 1])
  }

  /** Rendering then parsing gives back the number. */
  lemma {:induction false} NatToStringRoundTrip(n: nat)
    ensures AllDigits(NatToString(n))
    ensures ParseDigits(NatToString(n)) == n
    decreases n
  {
    if n >= 10 {
      NatToStringRoundTrip(n / 10);
      var s := NatToString(n);
      assert s[..|s| - 1] == NatToString(n / 10);
    }
  }

  /** Different numbers render differently. */
  lemma NatToStringInjective(a: nat, b: nat)
    requires NatToString(a) == NatToString(b)
    ensures a == b
  {
    NatToStringRoundTrip(a);
    NatToStringRoundTrip(b);
  }

  /** A numeral has one digit below 10, at most two below 100 and at least
      three from 100 on. */
  lemma {:induction false} NatToStringLength(n: nat)
    ensures n < 10 <==> |NatToString(n)| == 1
    ensures n < 100 <==> |NatToString(n)| <= 2
    decreases n
  {
    if n >= 10 {
      NatToStringLength(n / 10);
    }
  }

  /** `s.padStart(len, [c])`: left-pads with `c` up to `len` characters and
      never truncates. */
  function PadStart(s: string, len: nat, c: char): (r: string)
    ensures |r| == if |s| >= len then |s| else len
    ensures r[|r| - |s|..] == s
    ensures forall i :: 0 <= i < |r| - |s| ==> r[i] == c
  {
    if |s| >= len then s else seq(len - |s|, _ => c) + s
  }

  /** Leading zeros do not change the value of a numeral. */
  lemma {:induction false} ParseLeadingZero(s: string)
    requires AllDigits(s)
    ensures AllDigits("0" + s) && ParseDigits("0" + s) == ParseDigits(s)
    decreases |s|
  {
    if |s| > 0 {
      var t := "0" + s;
      assert t[..|t| - 1] == "0" + s[..|s| - 1];
      ParseLeadingZero(s[..|s| - 1]);
    }
  }

  /** `n.toString().padStart(2, "0")`: two digits for n < 100, and the digits
      always read back as n. */
  function Pad2(n: nat): (r: string)
    ensures AllDigits(r) && ParseDigits(r) == n
    ensures n < 100 ==> |r| == 2
    ensures n >= 100 ==> |r| > 2
  {
    NatToStringRoundTrip(n);
    NatToStringLength(n);
    var s := NatToString(n);
    if |s| == 1 then ParseLeadingZero(s); assert PadStart(s, 2, '0') == "0" + s;
    PadStart(s, 2, '0')
    else PadStart(s, 2, '0')
  }
}
