/**
 The `MM:SS` text that the countdown tick writes to the display
 (script.js lines 6-13), and an independent reader for that text.

 JavaScript turns the non-negative integers `minutes` and `seconds` into
 text with its number-to-string conversion; `DecimalString` models that
 conversion for integers below 10^21, where it is plain decimal (larger
 numbers print in exponent form). The countdown only converts 0..59.
 `Pad2` is the `x < 10 ? "0" + x : x` step, and `Format` glues the two
 padded parts with a colon, as the template literal does.
 */
module ClockText {

  datatype Option<T> = None | Some(value: T)

  /** A clock reading: whole minutes and the seconds beyond them. */
  datatype Reading = Reading(minutes: nat, seconds: nat) {
    /** The number of seconds the reading stands for. */
    function Total(): nat {
      60 * minutes + seconds
    }
  }

  predicate IsDigit(c: char) {
    '0' <= c <= '9'
  }

  predicate AllDigits(s: string) {
    forall i :: 0 <= i < |s| ==> IsDigit(s[i])
  }

  function DigitChar(d: nat): (c: char)
    requires d < 10
    ensures IsDigit(c)
  {
    ('0' as int + d) as char
  }

  function DigitValue(c: char): nat
    requires IsDigit(c)
  {
    c as int - '0' as int
  }

  /**
   Decimal text of `n`, without leading zeros: JavaScript's `String(n)` for
   integers below 10^21, which covers the 0..59 the countdown converts.
   */
  function DecimalString(n: nat): (r: string)
    ensures |r| >= 1
    ensures n < 100 ==> |r| <= 2
    decreases n
  {
    if n < 10 then [DigitChar(n)] else DecimalString(n / 10) + [DigitChar(n % 10)]
  }

  /**
   The decimal text is all digits; it has one digit exactly for values
   below 10 and two digits exactly for 10..99.
   */
  lemma {:induction false} DecimalDigits(n: nat)
    ensures AllDigits(DecimalString(n)) && |DecimalString(n)| >= 1
    ensures n < 10 <==> |DecimalString(n)| == 1
    ensures 10 <= n < 100 <==> |DecimalString(n)| == 2
    decreases n
  {
    if n >= 10 {
      DecimalDigits(n / 10);
    }
  }

  /** The number a string of decimal digits denotes (leading zeros allowed). */
  function DigitsValue(s: string): nat
    requires AllDigits(s)
    decreases |s|
  {
    if s == [] then 0 else 10 * DigitsValue(s[..|s| - 1]) + DigitValue(s[|s| - 1])
  }

  /** script.js lines 9-10: prefix a "0" to values below 10, leave the rest as they are. */
  function Pad2(v: nat): (r: string)
    ensures |r| >= 2
    ensures v < 100 ==> |r| == 2
  {
    if v < 10 then "0" + DecimalString(v) else DecimalString(v)
  }

  /** script.js lines 6-13: the text shown for `t` remaining seconds. */
  function Format(t: nat): (r: string)
    ensures |r| >= 5 && r[|r| - 3] == ':'
  {
    Pad2(t / 60) + ":" + Pad2(t % 60)
  }

  /** `MM:SS`: exactly two digits, a colon, two digits. */
  predicate IsClockText(s: string) {
    |s| == 5 && IsDigit(s[0]) && IsDigit(s[1]) && s[2] == ':' && IsDigit(s[3]) && IsDigit(s[4])
  }

  /**
   Reads text of the form `<two or more digits>:<two digits>` back into a
   reading; anything else, and seconds of 60 or more, is refused.
   */
  function Parse(s: string): (r: Option<Reading>)
    ensures r.Some? ==> r.value.seconds < 60
    ensures r.Some? ==> |s| >= 5 && s[|s| - 3] == ':'
    ensures r.Some? ==> AllDigits(s[..|s| - 3]) && AllDigits(s[|s| - 2..])
  {
    if |s| < 5 || s[|s| - 3] != ':' then None
    else
      var mm, ss := s[..|s| - 3], s[|s| - 2..];
      if !AllDigits(mm) || !AllDigits(ss) then None
      else if DigitsValue(ss) >= 60 then None
      else Some(Reading(DigitsValue(mm), DigitsValue(ss)))
  }

  /** The decimal text of `n` reads back as `n`. */
  lemma {:induction false} DecimalRoundTrip(n: nat)
    ensures AllDigits(DecimalString(n)) && DigitsValue(DecimalString(n)) == n
    decreases n
  {
    DecimalDigits(n);
    if n >= 10 {
      var prefix := DecimalString(n / 10);
      var s := prefix + [DigitChar(n % 10)];
      assert s[..|s| - 1] == prefix;
      DecimalRoundTrip(n / 10);
    }
  }

  /** A leading zero does not change the value of a digit string. */
  lemma {:induction false} LeadingZero(s: string)
    requires AllDigits(s)
    ensures AllDigits("0" + s) && DigitsValue("0" + s) == DigitsValue(s)
    decreases |s|
  {
    var z := "0" + s;
    if s != [] {
      assert z[..|z| - 1] == "0" + s[..|s| - 1];
      LeadingZero(s[..|s| - 1]);
    }
  }

  /**
   The padded text denotes the value it was made from, is all digits, and
   has exactly two characters precisely when the value is below 100 (the
   padding never truncates).
   */
  lemma Pad2Value(v: nat)
    ensures AllDigits(Pad2(v)) && DigitsValue(Pad2(v)) == v
    ensures |Pad2(v)| >= 2
    ensures |Pad2(v)| == 2 <==> v < 100
  {
    DecimalDigits(v);
    DecimalRoundTrip(v);
    if v < 10 {
      LeadingZero(DecimalString(v));
    }
  }

  /**
   The text splits `t` into minutes `t / 60` and seconds `t % 60`, and
   reading it back gives exactly those fields, so that `60 * MM + SS == t`.
   This holds for every `t`: the minutes part simply grows past two digits.
   */
  lemma FormatRoundTrip(t: nat)
    ensures Parse(Format(t)) == Some(Reading(t / 60, t % 60))
    ensures Parse(Format(t)).value.Total() == t
    ensures Parse(Format(t)).value.seconds < 60
  {
    var mm, ss := Pad2(t / 60), Pad2(t % 60);
    Pad2Value(t / 60);
    Pad2Value(t % 60);
    var s := Format(t);
    assert s == mm + ":" + ss;
    assert s[..|s| - 3] == mm;
    assert s[|s| - 2..] == ss;
  }

  /** Different remaining times never show the same text. */
  lemma FormatInjective(a: nat, b: nat)
    requires Format(a) == Format(b)
    ensures a == b
  {
    FormatRoundTrip(a);
    FormatRoundTrip(b);
  }

  /**
   The text has the fixed `DD:DD` shape exactly when the minutes fit in two
   digits, i.e. for every time below 100 minutes; in particular for the
   whole 0..900 range the countdown uses.
   */
  lemma FormatShape(t: nat)
    ensures IsClockText(Format(t)) <==> t < 6000
    ensures |Format(t)| == 5 <==> t < 6000
  {
    Pad2Value(t / 60);
    Pad2Value(t % 60);
    var mm, ss := Pad2(t / 60), Pad2(t % 60);
    var s := Format(t);
    assert s == mm + ":" + ss;
    if t < 6000 {
      assert s[0] == mm[0] && s[1] == mm[1] && s[3] == ss[0] && s[4] == ss[1];
    }
  }
}
