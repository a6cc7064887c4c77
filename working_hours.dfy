/**
 * The working-hours figure of a clock-out: the two times of day are read as
 * instants of 1970-01-01, subtracted, divided by one hour, and written with
 * `toFixed(2)`. Here the difference is kept in whole seconds and the value
 * in hundredths of an hour (centi-hours), so no floating point is involved.
 */
module WorkingHours {
  import opened Wrappers
  import opened TimeOfDay

  /**
   * The difference in whole hundredths of an hour nearest to `d` seconds,
   * a tie going away from zero, as `toFixed` rounds the magnitude of its
   * argument (the larger candidate wins a tie).
   */
  function CentiHours(d: int): (r: int)
    ensures d >= 0 ==> 36 * r - 18 <= d < 36 * r + 18
    ensures d < 0 ==> 36 * r - 18 < d <= 36 * r + 18
  {
    if d >= 0 then (d + 18) / 36 else -((18 - d) / 36)
  }

  /** The rounding bounds of CentiHours fix its value: no other number meets them. */
  lemma CentiHoursUnique(d: int, c: int)
    requires d >= 0 ==> 36 * c - 18 <= d < 36 * c + 18
    requires d < 0 ==> 36 * c - 18 < d <= 36 * c + 18
    ensures c == CentiHours(d)
  {
  }

  /** A negative difference never rounds to a positive figure, and the other way round. */
  lemma CentiHoursSign(d: int)
    ensures CentiHours(d) < 0 ==> d < 0
    ensures CentiHours(d) > 0 ==> d > 0
    ensures CentiHours(-d) == -CentiHours(d)
  {
    var r, q := CentiHours(d), CentiHours(-d);
    if d > 0 {
      CentiHoursUnique(-d, -r);
    } else if d < 0 {
      CentiHoursUnique(d, -q);
    }
  }

  predicate AllDigits(s: string) {
    forall i | 0 <= i < |s| :: IsDigit(s[i])
  }

  /** The decimal digits of a natural number, without leading zeros. */
  function NatText(n: nat): (s: string)
    ensures |s| > 0 && AllDigits(s)
    ensures |s| > 1 ==> s[0] != '0'
  {
    if n < 10 then [DigitChar(n)] else NatText(n / 10) + [DigitChar(n % 10)]
  }

  /** The number a string of decimal digits denotes. */
  function NatValue(s: string): nat
    requires AllDigits(s)
  {
    if s == [] then 0 else 10 * NatValue(s[..|s| - 1]) + DigitValue(s[|s| - 1])
  }

  lemma {:induction false} NatValueText(n: nat)
    ensures NatValue(NatText(n)) == n
  {
    if n >= 10 {
      var s := NatText(n);
      assert s[..|s| - 1] == NatText(n / 10);
      NatValueText(n / 10);
    } else {
      assert NatText(n)[..0] == [];
    }
  }

  lemma Pad2Value(n: nat)
    requires n < 100
    ensures AllDigits(Pad2(n)) && NatValue(Pad2(n)) == n
  {
    var s := Pad2(n);
    assert s[..1][..0] == [];
    assert NatValue(s[..1]) == DigitValue(s[0]);
  }

  /**
   * The text `toFixed(2)` gives for an hour count of `d` seconds: a minus
   * sign when the difference is negative (even when it rounds to zero), the
   * whole hours, a point and two digits of hundredths.
   */
  function ToFixed2(d: int): (s: string)
    ensures |s| >= 4 && s[|s| - 3] == '.'
    ensures s[0] == '-' <==> d < 0
  {
    var c := if d < 0 then -CentiHours(d) else CentiHours(d);
    (if d < 0 then "-" else "") + NatText(c / 100) + "." + Pad2(c % 100)
  }

  /** Decimal digits with no leading zero, as a whole number is written. */
  predicate WholeText(w: string) {
    |w| > 0 && AllDigits(w) && (|w| > 1 ==> w[0] != '0')
  }

  /**
   * The shape of a `toFixed(2)` text: an optional minus sign, a whole part
   * with no leading zero, a point and exactly two digits.
   */
  predicate Fixed2Text(s: string) {
    && |s| >= 4 && s[|s| - 3] == '.' && AllDigits(s[|s| - 2..])
    && WholeText(s[(if s[0] == '-' then 1 else 0)..|s| - 3])
  }

  lemma {:induction false} LeadingDigitPositive(w: string)
    requires |w| > 0 && AllDigits(w) && w[0] != '0'
    ensures NatValue(w) > 0
  {
    if |w| > 1 {
      LeadingDigitPositive(w[..|w| - 1]);
    }
  }

  /** A whole number written without leading zeros is the text NatText writes for its value. */
  lemma {:induction false} WholeTextValue(w: string)
    requires WholeText(w)
    ensures NatText(NatValue(w)) == w
  {
    var n := NatValue(w);
    if |w| == 1 {
      assert w[..0] == [];
      assert DigitChar(DigitValue(w[0])) == w[0];
    } else {
      var p := w[..|w| - 1];
      LeadingDigitPositive(p);
      WholeTextValue(p);
      assert n / 10 == NatValue(p) && n % 10 == DigitValue(w[|w| - 1]);
      assert DigitChar(DigitValue(w[|w| - 1])) == w[|w| - 1];
      assert w == p + [w[|w| - 1]];
    }
  }

  /** Two digits are the text Pad2 writes for their value. */
  lemma TwoDigitsValue(h: string)
    requires |h| == 2 && AllDigits(h)
    ensures NatValue(h) < 100 && Pad2(NatValue(h)) == h
  {
    var p := h[..1];
    assert p[..0] == [] && p[0] == h[0];
    assert NatValue(p) == DigitValue(h[0]);
    assert NatValue(h) == 10 * NatValue(p) + DigitValue(h[1]);
    assert DigitChar(DigitValue(h[0])) == h[0] && DigitChar(DigitValue(h[1])) == h[1];
  }

  /** The value in hundredths of a text with no sign, digits, a point and two digits. */
  function ParseUnsignedFixed2(s: string): (r: Option<nat>)
    ensures r.Some? ==> |s| >= 4 && s[|s| - 3] == '.'
  {
    if |s| < 4 || s[|s| - 3] != '.' then None
    else
      var whole, hundredths := s[..|s| - 3], s[|s| - 2..];
      if AllDigits(whole) && AllDigits(hundredths) then
        Some(100 * NatValue(whole) + NatValue(hundredths))
      else
        None
  }

  /**
   * The number, in hundredths, that a two-decimal text denotes; it is the
   * value a numeric column holds after the text is written to it.
   */
  function ParseFixed2(s: string): (r: Option<int>)
    ensures r.Some? ==> |s| >= 4
  {
    if |s| > 0 && s[0] == '-' then
      match ParseUnsignedFixed2(s[1..])
      case Some(v) => Some(-(v as int))
      case None => None
    else
      ParseUnsignedFixed2(s)
  }

  /** The unsigned part of a two-decimal text reads back as the hundredths it was written from. */
  lemma UnsignedFixed2Value(c: nat)
    ensures ParseUnsignedFixed2(NatText(c / 100) + "." + Pad2(c % 100)) == Some(c)
  {
    var u := NatText(c / 100) + "." + Pad2(c % 100);
    assert u[..|u| - 3] == NatText(c / 100);
    assert u[|u| - 2..] == Pad2(c % 100);
    NatValueText(c / 100);
    Pad2Value(c % 100);
  }

  /** The two-decimal text of a difference denotes exactly its rounded centi-hours. */
  lemma ToFixed2Value(d: int)
    ensures ParseFixed2(ToFixed2(d)) == Some(CentiHours(d))
  {
    CentiHoursSign(d);
    var c: nat := if d < 0 then -CentiHours(d) else CentiHours(d);
    var u := NatText(c / 100) + "." + Pad2(c % 100);
    UnsignedFixed2Value(c);
    if d < 0 {
      assert ToFixed2(d) == "-" + u;
      assert ToFixed2(d)[1..] == u;
    } else {
      assert ToFixed2(d) == u;
    }
  }

  /** The text of every difference has the shape `toFixed(2)` writes. */
  lemma ToFixed2Shape(d: int)
    ensures Fixed2Text(ToFixed2(d))
  {
    var c: nat := if d < 0 then -CentiHours(d) else CentiHours(d);
    var sign := if d < 0 then "-" else "";
    var w, h := NatText(c / 100), Pad2(c % 100);
    var s := ToFixed2(d);
    assert s == sign + w + "." + h;
    assert s[|s| - 2..] == h;
    assert s[|sign|..|s| - 3] == w;
  }

  /** An unsigned text of that shape is the one written for the hundredths it reads as. */
  lemma UnsignedFixed2Unique(u: string, c: nat)
    requires |u| >= 4 && u[|u| - 3] == '.' && WholeText(u[..|u| - 3]) && AllDigits(u[|u| - 2..])
    requires ParseUnsignedFixed2(u) == Some(c)
    ensures u == NatText(c / 100) + "." + Pad2(c % 100)
  {
    var w, h := u[..|u| - 3], u[|u| - 2..];
    TwoDigitsValue(h);
    assert 100 * NatValue(w) + NatValue(h) == c;
    assert NatValue(w) == c / 100 && NatValue(h) == c % 100;
    WholeTextValue(w);
    assert u == w + "." + h;
  }

  /**
   * ToFixed2 is the only text of that shape that carries the sign of the
   * difference and reads back as its rounded centi-hours.
   */
  lemma ToFixed2Unique(d: int, s: string)
    requires Fixed2Text(s) && (s[0] == '-' <==> d < 0)
    requires ParseFixed2(s) == Some(CentiHours(d))
    ensures s == ToFixed2(d)
  {
    CentiHoursSign(d);
    var c: nat := if d < 0 then -CentiHours(d) else CentiHours(d);
    if d < 0 {
      var u := s[1..];
      assert u[..|u| - 3] == s[1..|s| - 3] && u[|u| - 2..] == s[|s| - 2..];
      UnsignedFixed2Unique(u, c);
      assert s == "-" + u;
    } else {
      UnsignedFixed2Unique(s, c);
    }
  }

  /**
   * The working-hours text of a clock-out that found `inText` and clocks
   * out at `outText`: "NaN" (what `NaN.toFixed(2)` gives) when either text
   * is not a time of day, and otherwise the two-decimal text of the
   * signed difference out minus in.
   */
  function HoursText(inText: string, outText: string): (s: string)
    ensures Parse(inText).None? || Parse(outText).None? ==> s == "NaN"
  {
    if Parse(inText).Some? && Parse(outText).Some? then
      ToFixed2(Parse(outText).value as int - Parse(inText).value as int)
    else
      "NaN"
  }

  /**
   * For two readable times the working-hours text stands for
   * (seconds(out) - seconds(in)) / 3600 rounded to hundredths, and it is
   * negative exactly when the clock-out time of day precedes the clock-in one.
   */
  lemma HoursTextValue(inText: string, outText: string)
    requires Parse(inText).Some? && Parse(outText).Some?
    ensures ParseFixed2(HoursText(inText, outText))
         == Some(CentiHours(Parse(outText).value - Parse(inText).value))
    ensures HoursText(inText, outText)[0] == '-' <==> Parse(outText).value < Parse(inText).value
  {
    var a: int, b: int := Parse(inText).value, Parse(outText).value;
    assert HoursText(inText, outText) == ToFixed2(b - a);
    ToFixed2Value(b - a);
  }

  /** Between two clock readings the working-hours text is that of their difference. */
  lemma HoursTextOfClock(a: nat, b: nat)
    requires a < SecondsPerDay && b < SecondsPerDay
    ensures HoursText(Format(a), Format(b)) == ToFixed2(b - a)
  {
    ParseFormat(a);
    ParseFormat(b);
    HoursTextOfReadings(Format(a), Format(b), a, b);
  }

  lemma HoursTextOfReadings(inText: string, outText: string, a: nat, b: nat)
    requires Parse(inText) == Some(a) && Parse(outText) == Some(b)
    ensures HoursText(inText, outText) == ToFixed2(b - a)
  {
  }

  /**
   * A clock-out at `clock` after a clock-in recorded as `inText` reports
   * (clock - seconds(inText)) / 3600 hours, rounded to hundredths.
   */
  lemma HoursTextAtClock(inText: string, clock: nat)
    requires Parse(inText).Some? && clock < SecondsPerDay
    ensures ParseFixed2(HoursText(inText, Format(clock))) == Some(CentiHours(clock - Parse(inText).value))
  {
    var outText := Format(clock);
    ParseFormat(clock);
    assert Parse(outText) == Some(clock);
    HoursTextValue(inText, outText);
  }

  lemma ExampleClockTexts()
    ensures Format(32400) == "09:00:00" && Format(63000) == "17:30:00"
    ensures Format(62100) == "17:15:00"
  {
    ExampleClockText(9, 0, 0);
    ExampleClockText(17, 30, 0);
    ExampleClockText(17, 15, 0);
  }

  lemma ExampleClockText(h: nat, m: nat, sec: nat)
    requires h < 24 && m < 60 && sec < 60
    ensures Format(3600 * h + 60 * m + sec)
         == [DigitChar(h / 10), DigitChar(h % 10), ':', DigitChar(m / 10), DigitChar(m % 10), ':',
             DigitChar(sec / 10), DigitChar(sec % 10)]
  {
    TimeFields(h, m, sec);
  }

  lemma ExampleFixed2Texts()
    ensures ToFixed2(30600) == "8.50" && ToFixed2(-900) == "-0.25"
  {
    assert CentiHours(30600) == 850 && CentiHours(-900) == -25;
    assert NatText(8) == "8" && NatText(0) == "0";
    assert Pad2(50) == "50" && Pad2(25) == "25";
  }

  /** A shift from nine o'clock to half past five is 8.50 hours. */
  lemma NineToHalfPastFive()
    ensures HoursText("09:00:00", "17:30:00") == "8.50"
  {
    ExampleClockTexts();
    HoursTextOfClock(32400, 63000);
    ExampleFixed2Texts();
  }

  /** Clocking out a quarter of an hour before clocking in yields -0.25 hours. */
  lemma QuarterHourBefore()
    ensures HoursText("17:30:00", "17:15:00") == "-0.25"
  {
    ExampleClockTexts();
    HoursTextOfClock(63000, 62100);
    ExampleFixed2Texts();
  }
}
