/**
  The two text formatters of the monitor, `seconds_to_human_form` and
  `percentage_to_human_form`. Both script versions carry the same code for them.
  Strings are sequences of characters; Python's `str` on an integer is modelled
  by `DecimalDigits` (non-negative) and `IntegerText` (any sign).
 */
module HumanForm {

  predicate IsDigit(c: char) {
    '0' <= c <= '9'
  }

  predicate AllDigits(s: string) {
    forall k | 0 <= k < |s| :: IsDigit(s[k])
  }

  function DigitChar(d: nat): (c: char)
    requires d < 10
    ensures IsDigit(c)
  {
    ('0' as int + d) as char
  }

  function DigitValue(c: char): (d: nat)
    requires IsDigit(c)
    ensures d < 10
  {
    c as int - '0' as int
  }

  /** The number a string of decimal digits denotes (the inverse of `DecimalDigits`). */
  function DecimalValue(s: string): nat
    requires AllDigits(s)
  {
    if s == [] then 0 else DecimalValue(s[..|s| - 1]) * 10 + DigitValue(s[|s| - 1])
  }

  /** Python's `str(n)` for a non-negative integer: its decimal digits without leading zeros. */
  function DecimalDigits(n: nat): (r: string)
    ensures AllDigits(r) && DecimalValue(r) == n
    ensures |r| >= 1 && (|r| > 1 ==> r[0] != '0')
    decreases n
  {
    if n < 10 then [DigitChar(n)]
    else
      var r := DecimalDigits(n / 10) + [DigitChar(n % 10)];
      assert r[..|r| - 1] == DecimalDigits(n / 10);
      r
  }

  /** The number of digits: one below ten, at most two below a hundred, at most three below a thousand. */
  lemma {:induction false} DigitsLength(n: nat)
    ensures |DecimalDigits(n)| == 1 <==> n < 10
    ensures |DecimalDigits(n)| <= 2 <==> n < 100
    ensures |DecimalDigits(n)| <= 3 <==> n < 1000
    decreases n
  {
    if n >= 10 {
      DigitsLength(n / 10);
    }
  }

  /** Python's `str(i)` for any integer. */
  function IntegerText(i: int): string {
    if i < 0 then "-" + DecimalDigits(-i) else DecimalDigits(i)
  }

  /** A leading zero does not change the value of a digit string. */
  lemma {:induction false} LeadingZero(s: string)
    requires AllDigits(s)
    ensures AllDigits("0" + s) && DecimalValue("0" + s) == DecimalValue(s)
  {
    if s != [] {
      var t := "0" + s;
      assert t[..|t| - 1] == "0" + s[..|s| - 1];
      LeadingZero(s[..|s| - 1]);
    }
  }

  /** One field of `seconds_to_human_form`: `'0'` in front of a value below ten, then `str`. */
  function TwoDigitField(n: nat): (r: string)
    ensures AllDigits(r) && DecimalValue(r) == n
    ensures |r| >= 2 && (n < 100 ==> |r| == 2)
  {
    DigitsLength(n);
    if n < 10 then
      LeadingZero(DecimalDigits(n));
      "0" + DecimalDigits(n)
    else DecimalDigits(n)
  }

  /**
    `r` is `H:MM:SS` for `seconds`: an hours field of at least two digits, minute and second
    fields of exactly two digits and below 60, and hours*3600 + minutes*60 + seconds equal
    to the input.
   */
  predicate ClockText(r: string, seconds: int) {
    && |r| >= 8
    && r[|r| - 6] == ':' && r[|r| - 3] == ':'
    && AllDigits(r[..|r| - 6]) && AllDigits(r[|r| - 5..|r| - 3]) && AllDigits(r[|r| - 2..])
    && DecimalValue(r[|r| - 5..|r| - 3]) < 60
    && DecimalValue(r[|r| - 2..]) < 60
    && DecimalValue(r[..|r| - 6]) * 3600 + DecimalValue(r[|r| - 5..|r| - 3]) * 60
       + DecimalValue(r[|r| - 2..]) == seconds
  }

  /** Three digit fields joined by colons read back as the fields. */
  lemma ClockFields(hours: string, minutes: string, secs: string, seconds: int)
    requires AllDigits(hours) && AllDigits(minutes) && AllDigits(secs)
    requires |hours| >= 2 && |minutes| == 2 && |secs| == 2
    requires DecimalValue(minutes) < 60 && DecimalValue(secs) < 60
    requires DecimalValue(hours) * 3600 + DecimalValue(minutes) * 60 + DecimalValue(secs) == seconds
    ensures ClockText(hours + ":" + minutes + ":" + secs, seconds)
  {
    var r := hours + ":" + minutes + ":" + secs;
    assert r[..|r| - 6] == hours;
    assert r[|r| - 5..|r| - 3] == minutes;
    assert r[|r| - 2..] == secs;
  }

  /** `seconds_to_human_form`: a negative input gives `"00:00:00?"`, any other is written as `H:MM:SS`. */
  function SecondsToHumanForm(seconds: int): (r: string)
    ensures seconds < 0 ==> r == "00:00:00?"
    ensures seconds >= 0 ==> ClockText(r, seconds)
  {
    if seconds < 0 then "00:00:00?"
    else
      var h, m, s := seconds / 3600, (seconds % 3600) / 60, (seconds % 3600) % 60;
      SplitSeconds(seconds);
      var hours, minutes, secs := TwoDigitField(h), TwoDigitField(m), TwoDigitField(s);
      ClockFields(hours, minutes, secs, seconds);
      hours + ":" + minutes + ":" + secs
  }

  /** Hours, minutes below 60 and seconds below 60 that add back up to the input. */
  lemma SplitSeconds(seconds: nat)
    ensures (seconds % 3600) / 60 < 60 && (seconds % 3600) % 60 < 60
    ensures (seconds / 3600) * 3600 + ((seconds % 3600) / 60) * 60 + (seconds % 3600) % 60 == seconds
  {
  }

  /**
    The integer part of `percentage_to_human_form`: two spaces in front of a one-digit
    value, one in front of a two-digit value, then `str(p0)`. Below 1000 it is three
    characters wide and right-aligned.
   */
  function IntegerPartField(p0: int): (r: string)
    ensures 0 <= p0 < 1000 ==>
      && |r| == 3
      && (p0 < 10 ==> r[..2] == "  " && r[2] == DigitChar(p0))
      && (10 <= p0 < 100 ==> r[0] == ' ' && r[1] != '0' && AllDigits(r[1..3]) && DecimalValue(r[1..3]) == p0)
      && (100 <= p0 ==> r[0] != '0' && AllDigits(r) && DecimalValue(r) == p0)
  {
    var pad := if p0 < 10 then "  " else if p0 < 100 then " " else "";
    var r := pad + IntegerText(p0);
    if p0 < 0 then r
    else
      DigitsLength(p0);
      assert p0 < 10 ==> r[2] == DecimalDigits(p0)[0];
      assert 10 <= p0 < 100 ==> r[1..3] == DecimalDigits(p0);
      assert 100 <= p0 ==> r == DecimalDigits(p0);
      r
  }

  /**
    `r` is a seven-character percentage: the integer part field of `p0`, `"."`, two digits
    reading `hundredths`, and `"%"`.
   */
  predicate PercentText(r: string, p0: int, hundredths: int) {
    && |r| == 7 && r[..3] == IntegerPartField(p0) && r[3] == '.' && r[6] == '%'
    && AllDigits(r[4..6]) && DecimalValue(r[4..6]) == hundredths
  }

  /** The integer part field, a point, two digits and a percent sign make a percentage text. */
  lemma PercentFields(integerPart: string, digits: string, p0: int, hundredths: int)
    requires integerPart == IntegerPartField(p0) && |integerPart| == 3
    requires |digits| == 2 && AllDigits(digits) && DecimalValue(digits) == hundredths
    ensures PercentText(integerPart + "." + digits + "%", p0, hundredths)
  {
    var r := integerPart + "." + digits + "%";
    assert r[..3] == integerPart;
    assert r[4..6] == digits;
  }

  /** The hundredths as written, `str(p1)` with `'0'` after one digit: two digits, reading ten times a one-digit `p1`. */
  lemma WrittenHundredths(p1: int)
    requires 0 <= p1 < 100
    ensures var s := DecimalDigits(p1) + (if p1 < 10 then "0" else "");
      |s| == 2 && AllDigits(s) && DecimalValue(s) == if p1 < 10 then 10 * p1 else p1
  {
    DigitsLength(p1);
    var s := DecimalDigits(p1) + (if p1 < 10 then "0" else "");
    if p1 < 10 {
      assert s[..1] == DecimalDigits(p1);
    }
  }

  /**
    `percentage_to_human_form` on the integer part `p0` and the hundredths `p1` of a
    percentage, exactly as written: the integer part field, `"."`, `str(p1)`, then `"0%"`
    after a one-digit `p1` and `"%"` otherwise. Below 1000 the text is seven characters
    wide; the zero after a one-digit `p1` makes 12.05 read as 12.50.
   */
  function PercentageToHumanForm(p0: int, p1: int): (r: string)
    requires 0 <= p1 < 100
    ensures |r| >= 1 && r[|r| - 1] == '%'
    ensures 0 <= p0 < 1000 ==> PercentText(r, p0, if p1 < 10 then 10 * p1 else p1)
  {
    var tail := if p1 < 10 then "0%" else "%";
    var r := IntegerPartField(p0) + "." + DecimalDigits(p1) + tail;
    if 0 <= p0 < 1000 then
      var digits := DecimalDigits(p1) + (if p1 < 10 then "0" else "");
      WrittenHundredths(p1);
      assert r == IntegerPartField(p0) + "." + digits + "%";
      PercentFields(IntegerPartField(p0), digits, p0, if p1 < 10 then 10 * p1 else p1);
      r
    else r
  }

  /**
    The formatting `percentage_to_human_form` evidently intends: the hundredths always as two
    digits, with the zero in front of a one-digit value, so that the text reads back as
    exactly `p0` and `p1`.
   */
  function PercentageToHumanFormIntended(p0: int, p1: int): (r: string)
    requires 0 <= p1 < 100
    ensures |r| >= 1 && r[|r| - 1] == '%'
    ensures 0 <= p0 < 1000 ==> PercentText(r, p0, p1)
  {
    var r := IntegerPartField(p0) + "." + TwoDigitField(p1) + "%";
    if 0 <= p0 < 1000 then
      PercentFields(IntegerPartField(p0), TwoDigitField(p1), p0, p1);
      r
    else r
  }

  /** A percentage of 12.05 is printed as `" 12.50%"`; the intended text is `" 12.05%"`. */
  lemma HundredthsMisrendered()
    ensures PercentageToHumanForm(12, 5) == " 12.50%"
    ensures PercentageToHumanFormIntended(12, 5) == " 12.05%"
    ensures PercentageToHumanForm(12, 5) != PercentageToHumanFormIntended(12, 5)
  {
    assert DecimalDigits(12) == "12" by {
      assert DecimalDigits(1) == "1";
    }
    assert DecimalDigits(5) == "5";
  }
}
