/** Formatting of a number of seconds as the "M:SS" caption text of a slide
    (`getTimestamp` in extract-images-script.js), with a parser for the same
    format so that the formatting can be shown to lose nothing. */
module Timestamp {
  import opened Options

  predicate IsDigit(c: char) {
    '0' <= c <= '9'
  }

  predicate AllDigits(s: string) {
    forall i :: 0 <= i < |s| ==> IsDigit(s[i])
  }

  function DigitChar(d: nat): (c: char)
    requires d < 10
    ensures IsDigit(c)
  {
    "0123456789"[d]
  }

  function DigitValue(c: char): (d: nat)
    requires IsDigit(c)
    ensures d < 10
  {
    (c as int - '0' as int) as nat
  }

  lemma DigitRoundTrip(d: nat)
    requires d < 10
    ensures DigitValue(DigitChar(d)) == d
  {
  }

  /** Decimal digits of a natural number, most significant first, without
      leading zeros: what JavaScript's `String(n)` prints for an integral
      Number below 10^21. */
  function NatToString(n: nat): (r: string)
    ensures |r| >= 1 && AllDigits(r)
    ensures r[0] == '0' ==> n == 0
    decreases n
  {
    if n < 10 then [DigitChar(n)] else NatToString(n / 10) + [DigitChar(n % 10)]
  }

  /** `String(n)` for an integral Number. */
  function IntToString(n: int): string {
    if n < 0 then "-" + NatToString(-n) else NatToString(n)
  }

  /** The value of a string of decimal digits (zero for the empty string). */
  function ParseDigits(s: string): nat
    requires AllDigits(s)
  {
    if |s| == 0 then 0 else 10 * ParseDigits(s[..|s| - 1]) + DigitValue(s[|s| - 1])
  }

  lemma {:induction false} ParseNatToString(n: nat)
    ensures ParseDigits(NatToString(n)) == n
    decreases n
  {
    if n >= 10 {
      var r := NatToString(n);
      ParseNatToString(n / 10);
      assert r[..|r| - 1] == NatToString(n / 10);
      DigitRoundTrip(n % 10);
    } else {
      DigitRoundTrip(n);
    }
  }

  /** JavaScript's `a % 60` on an integral Number: the remainder of a
      division that truncates toward zero, so its sign follows the dividend. */
  function JsRemainder60(a: int): (r: int)
    ensures a >= 0 ==> 0 <= r < 60
    ensures a < 0 ==> -60 < r <= 0
    ensures (a - r) % 60 == 0
  {
    if a >= 0 then a % 60 else -((-a) % 60)
  }

  /** `getTimestamp(secs)`: minutes are `Math.floor(secs / 60)` (Dafny's
      division by a positive divisor rounds down, like `Math.floor`), seconds
      are `secs % 60`, and a "0" is prepended when the seconds are below ten. */
  function GetTimestamp(secs: int): string {
    var minutes := secs / 60;
    var seconds := JsRemainder60(secs);
    IntToString(minutes) + ":" + (if seconds < 10 then "0" else "") + IntToString(seconds)
  }

  /** Reads an "M:SS" string: one or more minute digits, a colon, and exactly
      two second digits worth less than sixty. */
  function ParseTimestamp(t: string): Option<nat> {
    if |t| >= 4 && t[|t| - 3] == ':' && AllDigits(t[..|t| - 3])
       && IsDigit(t[|t| - 2]) && IsDigit(t[|t| - 1])
    then
      var ss := 10 * DigitValue(t[|t| - 2]) + DigitValue(t[|t| - 1]);
      if ss < 60 then Some(60 * ParseDigits(t[..|t| - 3]) + ss) else None
    else None
  }

  /** For a non-negative number of seconds the text is the minute count, a
      colon, and the seconds as exactly two digits below sixty. */
  lemma GetTimestampShape(secs: nat)
    ensures var t := GetTimestamp(secs);
      && |t| >= 4
      && t[..|t| - 3] == NatToString(secs / 60)
      && t[|t| - 3] == ':'
      && IsDigit(t[|t| - 2]) && IsDigit(t[|t| - 1])
      && 10 * DigitValue(t[|t| - 2]) + DigitValue(t[|t| - 1]) == secs % 60 < 60
  {
    var m := NatToString(secs / 60);
    var ss := secs % 60;
    var tail := (if ss < 10 then "0" else "") + NatToString(ss);
    var t := GetTimestamp(secs);
    assert t == m + ":" + tail;
    if ss < 10 {
      assert tail == [DigitChar(0), DigitChar(ss)];
      DigitRoundTrip(ss);
    } else {
      assert NatToString(ss) == NatToString(ss / 10) + [DigitChar(ss % 10)];
      assert tail == [DigitChar(ss / 10), DigitChar(ss % 10)];
      DigitRoundTrip(ss / 10);
      DigitRoundTrip(ss % 10);
    }
    assert t[..|t| - 3] == m;
  }

  /** Reading the text back as `M * 60 + SS` recovers the number of seconds. */
  lemma {:induction false} TimestampRoundTrip(secs: nat)
    ensures ParseTimestamp(GetTimestamp(secs)) == Some(secs)
  {
    GetTimestampShape(secs);
    ParseNatToString(secs / 60);
  }

  /** Two different non-negative second counts never share a caption. */
  lemma TimestampInjective(a: nat, b: nat)
    requires GetTimestamp(a) == GetTimestamp(b)
    ensures a == b
  {
    TimestampRoundTrip(a);
    TimestampRoundTrip(b);
  }

  /** Seconds below ten get a leading zero. */
  lemma TimestampPadsSeconds()
    ensures GetTimestamp(65) == "1:05"
    ensures GetTimestamp(5) == "0:05"
    ensures GetTimestamp(125) == "2:05"
  {
    assert NatToString(0) == "0" && NatToString(1) == "1" && NatToString(2) == "2" && NatToString(5) == "5";
    assert GetTimestamp(125) == NatToString(2) + ":" + "0" + NatToString(5);
    assert GetTimestamp(65) == NatToString(1) + ":" + "0" + NatToString(5);
    assert GetTimestamp(5) == NatToString(0) + ":" + "0" + NatToString(5);
  }

  /** Minutes are not padded or capped at sixty. */
  lemma TimestampLongMinutes()
    ensures GetTimestamp(754) == "12:34"
    ensures GetTimestamp(3600) == "60:00"
  {
    assert NatToString(12) == NatToString(1) + "2" == "12";
    assert NatToString(34) == NatToString(3) + "4" == "34";
    assert NatToString(60) == NatToString(6) + "0" == "60";
    assert GetTimestamp(754) == NatToString(12) + ":" + "" + NatToString(34);
    assert GetTimestamp(3600) == NatToString(60) + ":" + "0" + NatToString(0);
  }
}
