/** The clock text of the time readouts (`formatTime`): whole minutes and
    seconds, each padded to two digits, separated by a colon. */
module TimeFormat {
  import opened Common

  predicate IsDigit(c: char) {
    '0' <= c <= '9'
  }

  predicate AllDigits(s: string) {
    forall i | 0 <= i < |s| :: IsDigit(s[i])
  }

  function DigitChar(d: nat): (c: char)
    requires d < 10
    ensures IsDigit(c)
  {
    (('0' as int) + d) as char
  }

  function DigitValue(c: char): (d: nat)
    requires IsDigit(c)
    ensures d < 10
  {
    (c as int) - ('0' as int)
  }

  /** `Number.prototype.toString()` on a natural number: its decimal digits,
      without leading zeros. */
  function Decimal(n: nat): (s: string)
    ensures 1 <= |s|
    ensures AllDigits(s)
    ensures n < 10 <==> |s| == 1
    ensures 10 <= n < 100 ==> |s| == 2
    ensures 100 <= n ==> |s| >= 3
    ensures n > 0 ==> s[0] != '0'
    decreases n
  {
    if n < 10 then [DigitChar(n)]
    else Decimal(n / 10) + [DigitChar(n % 10)]
  }

  /** `padStart(2, '0')`: zeros in front up to two characters; longer text
      is left as it is. */
  function PadTwo(s: string): (r: string)
    ensures |r| == if |s| < 2 then 2 else |s|
    ensures AllDigits(s) ==> AllDigits(r)
  {
    if |s| == 0 then "00"
    else if |s| == 1 then ['0'] + s
    else s
  }

  /** The value of a string of decimal digits; leading zeros are allowed. */
  function ParseDecimal(s: string): nat
    requires AllDigits(s)
    decreases |s|
  {
    if |s| == 0 then 0
    else ParseDecimal(s[..|s| - 1]) * 10 + DigitValue(s[|s| - 1])
  }

  /** Reading a number's decimal text gives the number back. */
  lemma {:induction false} DecimalRoundTrip(n: nat)
    ensures ParseDecimal(Decimal(n)) == n
    decreases n
  {
    if n >= 10 {
      var s := Decimal(n);
      assert s[..|s| - 1] == Decimal(n / 10);
      DecimalRoundTrip(n / 10);
    }
  }

  /** A leading zero does not change the value read. */
  lemma {:induction false} LeadingZero(s: string)
    requires AllDigits(s)
    ensures ParseDecimal(['0'] + s) == ParseDecimal(s)
    decreases |s|
  {
    if |s| > 0 {
      var t := ['0'] + s;
      assert t[..|t| - 1] == ['0'] + s[..|s| - 1];
      LeadingZero(s[..|s| - 1]);
    } else {
      assert (['0'] + s)[..0] == [];
    }
  }

  /** Padding does not change the value read. */
  lemma PadTwoValue(s: string)
    requires AllDigits(s)
    ensures ParseDecimal(PadTwo(s)) == ParseDecimal(s)
  {
    if |s| == 0 {
      assert "00"[..1] == "0";
      assert "0"[..0] == [];
    } else if |s| == 1 {
      LeadingZero(s);
    }
  }

  /** `formatTime` on a whole number of seconds: `mm:ss`. */
  function FormatTime(seconds: nat): (r: string)
    ensures 5 <= |r|
    ensures r[|r| - 3] == ':'
    ensures AllDigits(r[..|r| - 3]) && AllDigits(r[|r| - 2..])
    ensures seconds < 6000 <==> |r| == 5
    ensures seconds >= 600 ==> r[0] != '0'
  {
    var mins := PadTwo(Decimal(seconds / 60));
    var secs := PadTwo(Decimal(seconds % 60));
    var r := mins + [':'] + secs;
    assert r[..|r| - 3] == mins && r[|r| - 2..] == secs;
    assert seconds / 60 < 100 <==> seconds < 6000;
    assert seconds / 60 >= 10 <==> seconds >= 600;
    assert r[0] == mins[0];
    r
  }

  /** Reading `mm:ss` clock text back: minutes before the last three
      characters, two digits of seconds after the colon. */
  function ParseTime(t: string): Option<nat> {
    if 4 <= |t| && t[|t| - 3] == ':' && AllDigits(t[..|t| - 3]) && AllDigits(t[|t| - 2..]) then
      Some(ParseDecimal(t[..|t| - 3]) * 60 + ParseDecimal(t[|t| - 2..]))
    else None
  }

  /** The clock text determines the time it was made from: reading it back
      gives the same number of seconds, and the seconds field is below 60. */
  lemma FormatTimeRoundTrip(seconds: nat)
    ensures ParseTime(FormatTime(seconds)) == Some(seconds)
    ensures var r := FormatTime(seconds); ParseDecimal(r[|r| - 2..]) < 60
  {
    var mins := Decimal(seconds / 60);
    var secs := Decimal(seconds % 60);
    var r := FormatTime(seconds);
    assert r[..|r| - 3] == PadTwo(mins) && r[|r| - 2..] == PadTwo(secs);
    DecimalRoundTrip(seconds / 60);
    DecimalRoundTrip(seconds % 60);
    PadTwoValue(mins);
    PadTwoValue(secs);
  }
}
